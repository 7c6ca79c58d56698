/**
 * The run in RangeTree.main: five points on the diagonal, the tree the
 * constructor builds over them, and the search of the window
 * [0, 4] x [0, 3], which returns four of them.
 */
module Example {
  import opened Wrappers
  import opened Geometry
  import opened Ordering
  import opened Cascading
  import opened Indexing
  import opened Trees
  import opened Query
  import opened Findings

  const A: Point := Point(0.0, 0.0)
  const B: Point := Point(1.0, 1.0)
  const C: Point := Point(2.0, 2.0)
  const D: Point := Point(3.0, 3.0)
  const E: Point := Point(4.0, 4.0)

  /** The points main adds, in the order it adds them. */
  const Diagonal: seq<Point> := [A, B, C, D, E]

  /** The window main searches: x in [0, 4], y in [0, 3]. */
  const QueryWindow: Window := Window(0.0, 4.0, 0.0, 3.0)

  /** Points whose y values rise strictly along the sequence. */
  ghost predicate RisingInY(pts: seq<Point>) {
    forall i, j :: 0 <= i < j < |pts| ==> pts[i].y < pts[j].y
  }

  /**
   * The keys of an inner node over points rising in y whose first k points
   * went to the left subtree: key i bridges left to its own point when
   * i < k and not at all otherwise, and right to the first right-hand point
   * not below it.
   */
  function DiagonalKeys(pts: seq<Point>, k: nat): seq<FractionalCascadingKey> {
    seq(|pts|, i requires 0 <= i < |pts| =>
      FractionalCascadingKey(pts[i], i, if i < k then Some(i) else None, if i < k then Some(0) else Some(i - k)))
  }

  /**
   * Over points rising in y split after the first k: the first left-hand
   * point not below point i is point i itself when i < k, and there is none
   * otherwise; the first right-hand one is the right half's first point
   * when i <= k, and point i itself otherwise.
   */
  lemma DiagonalBridges(pts: seq<Point>, k: nat, i: nat)
    requires RisingInY(pts) && 0 < k < |pts| && i < |pts|
    ensures LowerBound(MakeKeys(pts[..k]), KeyY, pts[i].y) == if i < k then Some(i) else None
    ensures LowerBound(MakeKeys(pts[k..]), KeyY, pts[i].y) == if i < k then Some(0) else Some(i - k)
  {
    var left := MakeKeys(pts[..k]);
    var right := MakeKeys(pts[k..]);
    assert forall j :: 0 <= j < |left| ==> KeyY(left[j]) == pts[j].y;
    assert forall j :: 0 <= j < |right| ==> KeyY(right[j]) == pts[k + j].y;
    if i < k {
      LowerBoundUnique(left, KeyY, pts[i].y, i);
      LowerBoundUnique(right, KeyY, pts[i].y, 0);
    } else {
      LowerBoundNone(left, KeyY, pts[i].y);
      LowerBoundUnique(right, KeyY, pts[i].y, i - k);
    }
  }

  /** Over points rising in y, wiring the two halves' keys into the node's keys gives DiagonalKeys. */
  lemma DiagonalWire(pts: seq<Point>, k: nat)
    requires RisingInY(pts) && 0 < k < |pts|
    ensures Wire(Wire(MakeKeys(pts), MakeKeys(pts[..k]), true), MakeKeys(pts[k..]), false) == DiagonalKeys(pts, k)
  {
    var left := MakeKeys(pts[..k]);
    var right := MakeKeys(pts[k..]);
    var once := Wire(MakeKeys(pts), left, true);
    var wired := Wire(once, right, false);
    forall i | 0 <= i < |pts| ensures wired[i] == DiagonalKeys(pts, k)[i] {
      DiagonalBridges(pts, k, i);
      assert once[i] == Bridged(NewKey(pts[i], i), left, true);
    }
  }

  /** The y-subset of a slice of tagged points is the part of the slice inside the range. */
  lemma {:induction false} TagSliceSubset(points: seq<Point>, a: nat, b: nat, lo: nat, hi: nat)
    requires a <= lo <= hi && a <= b <= |points|
    ensures var l := if lo < b then lo else b;
            var h := if hi < b then hi else b;
            YSubset(lo, hi, Tag(points)[a..b]) == Tag(points)[l..h]
    decreases b - a
  {
    if a < b {
      TagSliceSubset(points, a, b - 1, lo, hi);
      assert Tag(points)[a..b][..b - a - 1] == Tag(points)[a..b - 1];
    }
  }

  /** A sub-range of a tagged slice is covered by the slice, and its y-subset is the sub-slice. */
  lemma TagSliceCovers(xs: seq<Point>, a: nat, b: nat, start: nat, end: nat)
    requires a <= start <= end <= b <= |xs|
    ensures YSubset(start, end, Tag(xs)[a..b]) == Tag(xs)[start..end]
    ensures Covers(xs, start, end, Tag(xs)[a..b])
  {
    TagSliceSubset(xs, a, b, start, end);
  }

  /** Over points rising in y, the keys of the node for [start, end) split at leftEnd. */
  lemma DiagonalInnerKeys(xs: seq<Point>, start: nat, leftEnd: nat, end: nat)
    requires RisingInY(xs) && start < leftEnd < end <= |xs|
    ensures InnerKeys(Tag(xs)[start..end], start, leftEnd, end) == DiagonalKeys(xs[start..end], leftEnd - start)
  {
    var ys := Tag(xs)[start..end];
    var pts := xs[start..end];
    var k := leftEnd - start;
    assert ConvertToPoints(ys) == pts by {
      ConvertTag(xs, start, end);
    }
    assert ConvertToPoints(YSubset(start, leftEnd, ys)) == pts[..k] by {
      TagSliceSubset(xs, start, end, start, leftEnd);
      ConvertTag(xs, start, leftEnd);
    }
    assert ConvertToPoints(YSubset(leftEnd, end, ys)) == pts[k..] by {
      TagSliceSubset(xs, start, end, leftEnd, end);
      ConvertTag(xs, leftEnd, end);
    }
    DiagonalWire(pts, k);
  }

  /**
   * Over points rising in y whose tagged entries come in rank order, the
   * node for [start, end) splits at the x of its median rank, carries
   * DiagonalKeys, and its children are built from the node's own entries.
   */
  lemma DiagonalInner(xs: seq<Point>, a: nat, b: nat, start: nat, leftEnd: nat, end: nat)
    requires RisingInY(xs) && a <= start && start + 1 < end <= b <= |xs|
    requires leftEnd == start + Median(end - start) + 1
    ensures Covers(xs, start, end, Tag(xs)[a..b])
    ensures start < leftEnd < end
    ensures Covers(xs, start, leftEnd, Tag(xs)[start..end]) && Covers(xs, leftEnd, end, Tag(xs)[start..end])
    ensures Build(xs, start, end, Tag(xs)[a..b]) ==
            Node(xs[leftEnd - 1].x, DiagonalKeys(xs[start..end], leftEnd - start),
                 Build(xs, start, leftEnd, Tag(xs)[start..end]), Build(xs, leftEnd, end, Tag(xs)[start..end]))
  {
    TagSliceCovers(xs, a, b, start, end);
    TagSliceCovers(xs, start, end, start, leftEnd);
    TagSliceCovers(xs, start, end, leftEnd, end);
    BuildInner(xs, start, leftEnd, end, Tag(xs)[a..b], Tag(xs)[start..end]);
    DiagonalInnerKeys(xs, start, leftEnd, end);
  }

  /** The node for a single rank is the leaf over that rank's point. */
  lemma DiagonalLeaf(xs: seq<Point>, ys: seq<IndexedPoint>, start: nat)
    requires start < |xs| && YSubset(start, start + 1, ys) == Tag(xs)[start..start + 1]
    ensures Covers(xs, start, start + 1, ys)
    ensures Build(xs, start, start + 1, ys) == Leaf(xs[start])
  {
    assert Tag(xs)[start..start + 1] == [IndexedPoint(start, xs[start])];
    BuildLeaf(xs, start, start + 1, ys);
    assert ConvertToPoints([IndexedPoint(start, xs[start])]) == [xs[start]];
    assert MakeKeys([xs[start]]) == [NewKey(xs[start], 0)];
  }

  /** The subtree over the two points of ranks s and s + 1: a node at the lower one's x over two leaves. */
  function PairTree(xs: seq<Point>, s: nat): Tree
    requires s + 2 <= |xs|
  {
    Node(xs[s].x, DiagonalKeys(xs[s..s + 2], 1), Leaf(xs[s]), Leaf(xs[s + 1]))
  }

  /** The subtree over the three points of ranks s to s + 2: a node at the middle one's x over a pair and a leaf. */
  function TripleTree(xs: seq<Point>, s: nat): Tree
    requires s + 3 <= |xs|
  {
    Node(xs[s + 1].x, DiagonalKeys(xs[s..s + 3], 2), PairTree(xs, s), Leaf(xs[s + 2]))
  }

  /**
   * The subtree over the five points of ranks s to s + 4: a node at the
   * middle one's x over the first three and the last two.
   */
  function FiveTree(xs: seq<Point>, s: nat): Tree
    requires s + 5 <= |xs|
  {
    Node(xs[s + 2].x, DiagonalKeys(xs[s..s + 5], 3), TripleTree(xs, s), PairTree(xs, s + 3))
  }

  /** The node for two ranks inside a tagged slice is PairTree. */
  lemma PairBuilt(xs: seq<Point>, a: nat, b: nat, s: nat)
    requires RisingInY(xs) && a <= s && s + 2 <= b <= |xs|
    ensures Covers(xs, s, s + 2, Tag(xs)[a..b])
    ensures Build(xs, s, s + 2, Tag(xs)[a..b]) == PairTree(xs, s)
  {
    DiagonalInner(xs, a, b, s, s + 1, s + 2);
    TagSliceSubset(xs, s, s + 2, s, s + 1);
    DiagonalLeaf(xs, Tag(xs)[s..s + 2], s);
    TagSliceSubset(xs, s, s + 2, s + 1, s + 2);
    DiagonalLeaf(xs, Tag(xs)[s..s + 2], s + 1);
  }

  /** The node for three ranks inside a tagged slice is TripleTree. */
  lemma TripleBuilt(xs: seq<Point>, a: nat, b: nat, s: nat)
    requires RisingInY(xs) && a <= s && s + 3 <= b <= |xs|
    ensures Covers(xs, s, s + 3, Tag(xs)[a..b])
    ensures Build(xs, s, s + 3, Tag(xs)[a..b]) == TripleTree(xs, s)
  {
    DiagonalInner(xs, a, b, s, s + 2, s + 3);
    PairBuilt(xs, s, s + 3, s);
    TagSliceSubset(xs, s, s + 3, s + 2, s + 3);
    DiagonalLeaf(xs, Tag(xs)[s..s + 3], s + 2);
  }

  /** Points rising in y are already in y order, so sortPointsOnY keeps their tagged order. */
  lemma RisingSortedOnY(xs: seq<Point>)
    requires RisingInY(xs)
    ensures SortedOnY(xs) == Tag(xs)[0..|xs|]
  {
    var ys := Tag(xs);
    assert SortedBy(ys, IY);
    SortBySorted(ys, IY);
    assert ys[0..|xs|] == ys;
  }

  /** The constructor's root over points rising in y is the node for all ranks over their tagged list. */
  lemma RisingRoot(xs: seq<Point>)
    requires |xs| > 0 && RisingInY(xs)
    ensures Covers(xs, 0, |xs|, Tag(xs)[0..|xs|])
    ensures BuildRoot(xs) == Build(xs, 0, |xs|, Tag(xs)[0..|xs|])
  {
    TagSliceCovers(xs, 0, |xs|, 0, |xs|);
    RisingSortedOnY(xs);
  }

  /** The node for five ranks inside a tagged slice is FiveTree. */
  lemma FiveBuilt(xs: seq<Point>, a: nat, b: nat, s: nat)
    requires RisingInY(xs) && a <= s && s + 5 <= b <= |xs|
    ensures Covers(xs, s, s + 5, Tag(xs)[a..b])
    ensures Build(xs, s, s + 5, Tag(xs)[a..b]) == FiveTree(xs, s)
  {
    DiagonalInner(xs, a, b, s, s + 3, s + 5);
    TripleBuilt(xs, s, s + 5, s);
    PairBuilt(xs, s, s + 5, s + 3);
  }

  /** The constructor over five x-sorted points rising in y builds FiveTree. */
  lemma RisingTreeBuilt(xs: seq<Point>)
    requires |xs| == 5 && RisingInY(xs)
    ensures BuildRoot(xs) == FiveTree(xs, 0)
  {
    var ys := Tag(xs)[0..|xs|];
    RisingRoot(xs);
    calc {
      BuildRoot(xs);
      Build(xs, 0, |xs|, ys);
      { FiveBuilt(xs, 0, |xs|, 0); }
      FiveTree(xs, 0);
    }
  }

  /** The tree main builds. */
  function DiagonalTree(): Tree {
    FiveTree(Diagonal, 0)
  }

  /** main's points are already in x order, so the constructor's sort keeps them. */
  lemma DiagonalSortedOnX()
    ensures SortBy(Diagonal, X) == Diagonal
  {
    assert SortedBy(Diagonal, X);
    SortBySorted(Diagonal, X);
  }

  /** The constructor over main's points builds DiagonalTree. */
  lemma DiagonalTreeBuilt()
    ensures BuildRoot(Diagonal) == DiagonalTree()
  {
    assert RisingInY(Diagonal);
    RisingTreeBuilt(Diagonal);
  }

  /** The left branch from the root's left child reports c from the leaf beside it, then a and b at xMin. */
  lemma DiagonalLeftBranch()
    ensures LeftSpine(DiagonalTree().left, Some(0), QueryWindow, []) == Ok([C, A, B])
  {
    var t := DiagonalTree().left;
    var keys := DiagonalKeys(Diagonal[0..2], 1);
    assert Bridge(t.keys, Some(0), true) == Some(0);
    assert Bridge(t.keys, Some(0), false) == Some(0);
    assert WindowContainsPoint(QueryWindow, C);
    LeafReportsItsPoint(C, QueryWindow);
    assert ReportFrom(t.right.keys, Some(0), QueryWindow) == [C];
    assert t.position > QueryWindow.xMin && t.right.Node?;
    var empty: seq<Point> := [];
    assert empty + [C] == [C];
    assert LeftSpine(t, Some(0), QueryWindow, empty) == LeftSpine(t.left, Bridge(t.keys, Some(0), true), QueryWindow, empty + ReportFrom(t.right.keys, Bridge(t.keys, Some(0), false), QueryWindow));
    assert LeftSpine(t, Some(0), QueryWindow, []) == LeftSpine(t.left, Some(0), QueryWindow, [C]);
    assert Scan(keys, 2, QueryWindow) == [];
    assert Scan(keys, 1, QueryWindow) == [B];
    assert Scan(keys, 0, QueryWindow) == [A, B];
    assert LeftSpine(t.left, Some(0), QueryWindow, [C]) == Ok([C] + ReportFrom(keys, Some(0), QueryWindow));
    assert [C] + [A, B] == [C, A, B];
  }

  /** The right branch from the root's right child reports d from the leaf beside it and nothing from e. */
  lemma DiagonalRightBranch()
    ensures RightSpine(DiagonalTree().right, Some(0), QueryWindow, [C, A, B]) == Ok([C, A, B, D])
  {
    var t := DiagonalTree().right;
    assert Bridge(t.keys, Some(0), true) == Some(0);
    assert Bridge(t.keys, Some(0), false) == Some(0);
    assert WindowContainsPoint(QueryWindow, D) && !WindowContainsPoint(QueryWindow, E);
    LeafReportsItsPoint(D, QueryWindow);
    LeafReportsItsPoint(E, QueryWindow);
    assert t.position < QueryWindow.xMax && t.left.Node?;
    assert [C, A, B] + [D] == [C, A, B, D];
    assert RightSpine(t, Some(0), QueryWindow, [C, A, B]) == RightSpine(Leaf(E), Some(0), QueryWindow, [C, A, B, D]);
    assert Leaf(E).position == QueryWindow.xMax;
    assert [C, A, B, D] + [] == [C, A, B, D];
  }

  /** rootSearch(xMin) on the root lands on a, and the root itself is the split node. */
  lemma DiagonalSplit()
    ensures SplitFromRoot(DiagonalTree(), QueryWindow) == Ok(SplitNodeResult(DiagonalTree(), Some(0)))
  {
    var root := DiagonalTree();
    var keys := root.keys;
    assert RisingInY(Diagonal);
    assert SortedBy(keys, KeyY);
    LocateFinds(keys, QueryWindow.xMin);
    assert keys[0].point.y == QueryWindow.xMin;
  }

  /** The four of main's five points that lie in its window, in input order. */
  lemma DiagonalInWindow()
    ensures InWindow(Diagonal, QueryWindow) == [A, B, C, D]
  {
    assert !WindowContainsPoint(QueryWindow, E);
    assert Diagonal[..4] == [A, B, C, D];
    assert [A, B, C, D][..3] == [A, B, C];
    assert [A, B, C][..2] == [A, B];
    assert [A, B][..1] == [A];
    InWindowSingleton(A, QueryWindow);
    assert InWindow([A, B], QueryWindow) == [A, B];
    assert InWindow([A, B, C], QueryWindow) == [A, B, C];
    assert InWindow([A, B, C, D], QueryWindow) == [A, B, C, D];
  }

  /** The order c, a, b, d in which the search returns them is a permutation of those four. */
  lemma DiagonalInWindowPermuted()
    ensures multiset(InWindow(Diagonal, QueryWindow)) == multiset([C, A, B, D])
  {
    DiagonalInWindow();
  }

  /** The search as written over DiagonalTree. */
  lemma DiagonalSearch()
    ensures SearchAsWritten(DiagonalTree(), QueryWindow) == Ok([C, A, B, D])
  {
    var root := DiagonalTree();
    DiagonalSplit();
    assert Bridge(root.keys, Some(0), true) == Some(0);
    assert Bridge(root.keys, Some(0), false) == Some(0);
    DiagonalLeftBranch();
    DiagonalRightBranch();
  }

  /**
   * main's search as written: rootSearch(xMin) lands on a, the root is the
   * split node, and the result is c, a, b, d, in that order: the four of the
   * five points that lie in the window.
   */
  lemma MainSearch()
    ensures SearchAsWritten(BuildRoot(SortBy(Diagonal, X)), QueryWindow) == Ok([C, A, B, D])
  {
    DiagonalSortedOnX();
    DiagonalTreeBuilt();
    DiagonalSearch();
  }
}
