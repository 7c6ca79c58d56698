/**
 * Concrete inputs on which the search as written differs from the points in
 * the window, each set beside the corrected search on the same input.
 */
module Findings {
  import opened Wrappers
  import opened Geometry
  import opened Ordering
  import opened Cascading
  import opened Indexing
  import opened Trees
  import opened Query

  /** A leaf over point p: the node constructRangeTree makes for one point. */
  function Leaf(p: Point): Tree {
    Node(p.x, [NewKey(p, 0)], Nil, Nil)
  }

  /** The tree over a single point is one leaf. */
  lemma SinglePointTree(p: Point)
    ensures SortBy([p], X) == [p]
    ensures BuildRoot([p]) == Leaf(p)
  {
    assert [p][1..] == [];
    var ys := SortedOnY([p]);
    assert Tag([p]) == [IndexedPoint(0, p)];
    assert ys == [IndexedPoint(0, p)] by {
      assert [IndexedPoint(0, p)][1..] == [];
    }
    assert YSubset(0, 1, ys) == ys by {
      assert ys[..0] == [];
    }
    assert ConvertToPoints(ys) == [p];
    assert MakeKeys([p]) == [NewKey(p, 0)];
  }

  /**
   * The search as written over one point: it reads past the end of the
   * root's keys when the point's y is below xMin, fails on a null node when
   * the point's x is outside [xMin, xMax], and otherwise returns nothing.
   */
  lemma SinglePointSearch(p: Point, window: Window)
    ensures SearchAsWritten(Leaf(p), window) ==
            if p.y < window.xMin then Err(IndexOutOfBounds)
            else if window.xMin <= p.x <= window.xMax then Ok([])
            else Err(NullPointer)
  {
    var keys := [NewKey(p, 0)];
    LocateFinds(keys, window.xMin);
    if p.y >= window.xMin {
      assert Locate(keys, window.xMin) == Some(0);
      var split := FindSplit(Leaf(p), Some(0), window);
      if window.xMin <= p.x <= window.xMax {
        assert split == Ok(SplitNodeResult(Leaf(p), Some(0)));
        assert LeftSpine(Nil, Bridge(keys, Some(0), true), window, []) == Ok([]);
        assert RightSpine(Nil, Bridge(keys, Some(0), false), window, []) == Ok([]);
      } else if p.x < window.xMin {
        assert split == FindSplit(Nil, Bridge(keys, Some(0), false), window);
      } else {
        assert split == FindSplit(Nil, Bridge(keys, Some(0), true), window);
      }
    }
  }

  /** A split node that is a leaf is never reported. */
  lemma LeafSplitIsIgnored(p: Point, window: Window)
    requires p == Point(0.0, 0.0) && window == Window(0.0, 0.0, 0.0, 0.0)
    ensures SearchAsWritten(BuildRoot(SortBy([p], X)), window) == Ok([])
    ensures InWindow([p], window) == [p]
    ensures multiset(SearchFixed(BuildRoot(SortBy([p], X)), window)) == multiset{p}
  {
    SinglePointTree(p);
    SinglePointSearch(p, window);
    InWindowSingleton(p, window);
    SearchIsLinearScan([p], window);
  }

  /** A search that passes below or above every split position dereferences null. */
  lemma SplitSearchFallsOffTheTree(p: Point, window: Window)
    requires p == Point(0.0, 5.0) && window == Window(1.0, 2.0, 0.0, 10.0)
    ensures SearchAsWritten(BuildRoot(SortBy([p], X)), window) == Err(NullPointer)
    ensures InWindow([p], window) == []
    ensures SearchFixed(BuildRoot(SortBy([p], X)), window) == []
  {
    SinglePointTree(p);
    SinglePointSearch(p, window);
    InWindowSingleton(p, window);
    SearchIsLinearScan([p], window);
  }

  /** rootSearch reads past the end of the keys when every y is below xMin. */
  lemma RootSearchReadsPastTheEnd(p: Point, window: Window)
    requires p == Point(1.0, 0.0) && window == Window(1.0, 1.0, 0.0, 0.0)
    ensures SearchAsWritten(BuildRoot(SortBy([p], X)), window) == Err(IndexOutOfBounds)
    ensures InWindow([p], window) == [p]
    ensures multiset(SearchFixed(BuildRoot(SortBy([p], X)), window)) == multiset{p}
  {
    SinglePointTree(p);
    SinglePointSearch(p, window);
    InWindowSingleton(p, window);
    SearchIsLinearScan([p], window);
  }

  /** The keys of the root over two points p, q with p below and left of q. */
  function TwoPointKeys(p: Point, q: Point): seq<FractionalCascadingKey> {
    [FractionalCascadingKey(p, 0, Some(0), Some(0)), FractionalCascadingKey(q, 1, None, Some(0))]
  }

  /** Sorting two points already in key order leaves them in place. */
  lemma SortTwo<T>(a: T, b: T, key: T -> real)
    requires key(a) < key(b)
    ensures SortBy([a, b], key) == [a, b]
  {
    assert [a, b][1..] == [b];
    assert [b][1..] == [];
    assert SortBy([b], key) == [b];
  }

  /** The y-sorted entries over two points p, q with p.y < q.y. */
  lemma TwoPointYs(p: Point, q: Point)
    requires p.y < q.y
    ensures SortedOnY([p, q]) == [IndexedPoint(0, p), IndexedPoint(1, q)]
  {
    assert Tag([p, q]) == [IndexedPoint(0, p), IndexedPoint(1, q)];
    SortTwo(IndexedPoint(0, p), IndexedPoint(1, q), IY);
  }

  /** The y-subsets of two entries of ranks 0 and 1. */
  lemma TwoPointSubsets(ys: seq<IndexedPoint>)
    requires |ys| == 2 && ys[0].index == 0 && ys[1].index == 1
    ensures YSubset(0, 2, ys) == ys
    ensures YSubset(0, 1, ys) == [ys[0]]
    ensures YSubset(1, 2, ys) == [ys[1]]
  {
    assert ys[..1] == [ys[0]];
    assert ys[..1][..0] == [];
    assert ys == ys[..1] + [ys[1]];
  }

  /** The points of the two-point entries and of their halves. */
  lemma TwoPointConvert(p: Point, q: Point)
    ensures ConvertToPoints([IndexedPoint(0, p), IndexedPoint(1, q)]) == [p, q]
    ensures ConvertToPoints([IndexedPoint(0, p)]) == [p]
    ensures ConvertToPoints([IndexedPoint(1, q)]) == [q]
  {
  }

  /** The children of the root over two points are leaves. */
  lemma TwoPointChildren(p: Point, q: Point)
    requires p.y < q.y
    ensures var ys := [IndexedPoint(0, p), IndexedPoint(1, q)];
            Covers([p, q], 0, 1, ys) && Covers([p, q], 1, 2, ys) &&
            Build([p, q], 0, 1, ys) == Leaf(p) && Build([p, q], 1, 2, ys) == Leaf(q)
  {
    var ys := [IndexedPoint(0, p), IndexedPoint(1, q)];
    TwoPointSubsets(ys);
    assert Tag([p, q]) == ys;
    assert Tag([p, q])[0..1] == [ys[0]];
    assert Tag([p, q])[1..2] == [ys[1]];
    BuildLeaf([p, q], 0, 1, ys);
    BuildLeaf([p, q], 1, 2, ys);
    assert ConvertToPoints([ys[0]]) == [p];
    assert ConvertToPoints([ys[1]]) == [q];
    assert MakeKeys([p]) == [NewKey(p, 0)];
    assert MakeKeys([q]) == [NewKey(q, 0)];
  }

  /** The root's keys over two points once both leaves have wired their bridges. */
  lemma TwoPointRootKeys(p: Point, q: Point)
    requires p.y < q.y
    ensures Wire(Wire(MakeKeys([p, q]), MakeKeys([p]), true), MakeKeys([q]), false) == TwoPointKeys(p, q)
  {
    assert MakeKeys([p, q]) == [NewKey(p, 0), NewKey(q, 1)];
    assert MakeKeys([p]) == [NewKey(p, 0)];
    assert MakeKeys([q]) == [NewKey(q, 0)];
    assert LowerBound([NewKey(p, 0)], KeyY, p.y) == Some(0);
    assert LowerBound([NewKey(p, 0)], KeyY, q.y) == None;
    assert LowerBound([NewKey(q, 0)], KeyY, p.y) == Some(0);
    assert LowerBound([NewKey(q, 0)], KeyY, q.y) == Some(0);
    var once := Wire([NewKey(p, 0), NewKey(q, 1)], [NewKey(p, 0)], true);
    assert once == [FractionalCascadingKey(p, 0, Some(0), None), NewKey(q, 1)];
  }

  /**
   * Over two points p, q with p.x < q.x and p.y < q.y the root splits at p.x
   * into two leaves; p bridges to both leaves, q only to the right one.
   */
  lemma TwoPointTree(p: Point, q: Point)
    requires p.x < q.x && p.y < q.y
    ensures SortBy([p, q], X) == [p, q]
    ensures BuildRoot([p, q]) == Node(p.x, TwoPointKeys(p, q), Leaf(p), Leaf(q))
  {
    SortTwo(p, q, X);
    var ys := [IndexedPoint(0, p), IndexedPoint(1, q)];
    TwoPointYs(p, q);
    SortedOnYCovers([p, q]);
    assert BuildRoot([p, q]) == Build([p, q], 0, 2, ys);
    assert Median(2) == 0;
    TwoPointSubsets(ys);
    SplitCovers([p, q], 0, 1, 2, ys, ys);
    BuildInner([p, q], 0, 1, 2, ys, ys);
    TwoPointChildren(p, q);
    TwoPointRootKeys(p, q);
    TwoPointConvert(p, q);
  }

  /** rootSearch over the two-point root keys finds q for any bound strictly between the two y values. */
  lemma TwoPointLocate(p: Point, q: Point, min: real)
    requires p.y < min < q.y
    ensures Locate(TwoPointKeys(p, q), min) == Some(1)
  {
    var keys := TwoPointKeys(p, q);
    LocateFinds(keys, min);
    LowerBoundUnique(keys, KeyY, min, 1);
  }

  /** The report of a leaf from its only key. */
  lemma LeafReportsItsPoint(p: Point, window: Window)
    ensures ReportFrom([NewKey(p, 0)], Some(0), window) == if WindowContainsPoint(window, p) then [p] else []
  {
    assert Scan([NewKey(p, 0)], 1, window) == [];
  }

  /** The two-point root searched as written from the seed rootSearch(xMin). */
  lemma TwoPointSearchAsWritten(p: Point, q: Point, window: Window)
    requires p.x < q.x && p.y < q.y && p.y < window.xMin < q.y
    requires CompareTo(p.x, window.xMin, window.xMax) == 0
    ensures LeftSpine(Leaf(p), None, window, []).Err? ==>
      SearchAsWritten(Node(p.x, TwoPointKeys(p, q), Leaf(p), Leaf(q)), window) == LeftSpine(Leaf(p), None, window, [])
    ensures LeftSpine(Leaf(p), None, window, []).Ok? ==>
      SearchAsWritten(Node(p.x, TwoPointKeys(p, q), Leaf(p), Leaf(q)), window) ==
      RightSpine(Leaf(q), Some(0), window, LeftSpine(Leaf(p), None, window, []).value)
  {
    var keys := TwoPointKeys(p, q);
    var root := Node(p.x, keys, Leaf(p), Leaf(q));
    TwoPointLocate(p, q, window.xMin);
    assert FindSplit(root, Some(1), window) == Ok(SplitNodeResult(root, Some(1)));
    assert Bridge(keys, Some(1), true) == None;
    assert Bridge(keys, Some(1), false) == Some(0);
  }

  /** Of p below q (in x and in y), a window is entered by both or by q alone. */
  lemma TwoPointInWindow(p: Point, q: Point, window: Window)
    ensures InWindow([p, q], window) == InWindow([p], window) + InWindow([q], window)
  {
    assert [p, q] == [p] + [q];
    InWindowAppend([p], [q], window);
  }

  /** A leaf on the left branch at exactly xMin is reported from its key and ends the loop. */
  lemma LeafEndsLeftSpine(p: Point, key: Option<nat>, window: Window)
    requires p.x == window.xMin
    ensures LeftSpine(Leaf(p), key, window, []) == Ok(ReportFrom([NewKey(p, 0)], key, window))
  {
    assert [] + ReportFrom([NewKey(p, 0)], key, window) == ReportFrom([NewKey(p, 0)], key, window);
  }

  /** A leaf on the right branch at exactly xMax is reported from its key and ends the loop. */
  lemma LeafEndsRightSpine(q: Point, key: Option<nat>, window: Window, acc: seq<Point>)
    requires q.x == window.xMax
    ensures RightSpine(Leaf(q), key, window, acc) == Ok(acc + ReportFrom([NewKey(q, 0)], key, window))
  {
  }

  /**
   * rootSearch is handed xMin where the lower y bound is meant: every point
   * whose y lies between yMin and xMin is skipped.
   */
  lemma XMinSeedSkipsPoints(p: Point, q: Point, window: Window)
    requires p == Point(5.0, 1.0) && q == Point(6.0, 7.0) && window == Window(5.0, 6.0, 0.0, 10.0)
    ensures SearchAsWritten(BuildRoot(SortBy([p, q], X)), window) == Ok([q])
    ensures InWindow([p, q], window) == [p, q]
    ensures multiset(SearchFixed(BuildRoot(SortBy([p, q], X)), window)) == multiset{p, q}
  {
    TwoPointTree(p, q);
    TwoPointSearchAsWritten(p, q, window);
    LeafEndsLeftSpine(p, None, window);
    LeafEndsRightSpine(q, Some(0), window, []);
    LeafReportsItsPoint(q, window);
    TwoPointInWindow(p, q, window);
    InWindowSingleton(p, window);
    InWindowSingleton(q, window);
    SearchIsLinearScan([p, q], window);
  }

  /**
   * A key with no bridge into a child (all of the child's y values lie below
   * its own) is dereferenced on the way down the left branch.
   */
  lemma NullBridgeIsDereferenced(p: Point, q: Point, window: Window)
    requires p == Point(5.0, 1.0) && q == Point(6.0, 7.0) && window == Window(4.0, 6.0, 4.0, 10.0)
    ensures SearchAsWritten(BuildRoot(SortBy([p, q], X)), window) == Err(NullPointer)
  {
    TwoPointTree(p, q);
    TwoPointSearchAsWritten(p, q, window);
    assert LeftSpine(Leaf(p), None, window, []) == Err(NullPointer);
  }

  /** On the same input the corrected search reports the one point in the window. */
  lemma NullBridgeFixed(p: Point, q: Point, window: Window)
    requires p == Point(5.0, 1.0) && q == Point(6.0, 7.0) && window == Window(4.0, 6.0, 4.0, 10.0)
    ensures InWindow([p, q], window) == [q]
    ensures SearchFixed(BuildRoot(SortBy([p, q], X)), window) == [q]
  {
    assert InWindow([p, q], window) == [q] by {
      TwoPointInWindow(p, q, window);
      InWindowSingleton(p, window);
      InWindowSingleton(q, window);
    }
    var r := SearchFixed(BuildRoot(SortBy([p, q], X)), window);
    assert multiset(r) == multiset{q} by {
      SearchIsLinearScan([p, q], window);
    }
    SingletonMultiset(r, q);
  }

  lemma SingletonMultiset(r: seq<Point>, q: Point)
    requires multiset(r) == multiset{q}
    ensures r == [q]
  {
    assert |r| == |multiset(r)| == 1;
    assert r[0] in multiset(r);
  }
}
