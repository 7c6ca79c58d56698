/**
 * The two reference searches of com.satanja.naive: a linear scan over the
 * caller's list, and a scan of the x-sorted list that starts at a binary
 * search hit and stops early.
 */
module Naive {
  import opened Wrappers
  import opened Geometry
  import opened Ordering

  /** PointsInRange: keeps the caller's list and scans it on every query. */
  class PointsInRange {
    const points: array<Point>

    constructor (points: array<Point>)
      ensures this.points == points
    {
      this.points := points;
    }

    /** Every stored point inside the window, in stored order. */
    method Search(window: Window) returns (result: seq<Point>)
      ensures result == InWindow(points[..], window)
      ensures forall p :: p in result ==> p in points[..] && WindowContainsPoint(window, p)
    {
      result := [];
      for i := 0 to points.Length
        invariant result == InWindow(points[..i], window)
      {
        var point := points[i];
        assert points[..i + 1][..i] == points[..i];
        if WindowContainsPoint(window, point) {
          result := result + [point];
        }
      }
      assert points[..points.Length] == points[..];
    }
  }

  /** Where SortedPointsInRange.search starts scanning: the hit, or the insertion point. */
  function ScanStart(points: seq<Point>, window: Window): (start: nat)
    ensures start <= |points|
  {
    var index := BinarySearch(points, X, window.xMin);
    if index < 0 then -(index + 1) else index
  }

  /**
   * The forward scan of SortedPointsInRange.search from position i: keeps the
   * points in the window and stops at the first point outside it whose x is
   * beyond xMax.
   */
  function SortedScan(points: seq<Point>, i: nat, window: Window): (r: seq<Point>)
    ensures forall p :: p in r ==> p in points && WindowContainsPoint(window, p)
    decreases |points| - i
  {
    if i >= |points| then []
    else if WindowContainsPoint(window, points[i]) then [points[i]] + SortedScan(points, i + 1, window)
    else if points[i].x > window.xMax then []
    else SortedScan(points, i + 1, window)
  }

  /** SortedPointsInRange.search as written. */
  function SortedSearch(points: seq<Point>, window: Window): seq<Point> {
    SortedScan(points, ScanStart(points, window), window)
  }

  /** SortedPointsInRange: sorts the caller's list by x in place and keeps it. */
  class SortedPointsInRange {
    const points: array<Point>

    ghost predicate Valid()
      reads points
    {
      SortedBy(points[..], X)
    }

    constructor (points: array<Point>)
      modifies points
      ensures this.points == points
      ensures points[..] == SortBy(old(points[..]), X)
      ensures Valid()
    {
      var sorted := SortBy(points[..], X);
      forall i | 0 <= i < points.Length {
        points[i] := sorted[i];
      }
      assert points[..] == sorted;
      this.points := points;
    }

    method Search(window: Window) returns (result: seq<Point>)
      ensures result == SortedSearch(points[..], window)
      ensures forall p :: p in result ==> p in points[..] && WindowContainsPoint(window, p)
    {
      var index := BinarySearch(points[..], X, window.xMin);
      var start := if index < 0 then -1 * (index + 1) else index;
      result := [];
      var i := start;
      while i < points.Length
        invariant start <= i <= points.Length
        invariant result + SortedScan(points[..], i, window) == SortedScan(points[..], start, window)
      {
        var point := points[i];
        if WindowContainsPoint(window, point) {
          result := result + [point];
        } else if point.x > window.xMax {
          break;
        }
        i := i + 1;
      }
    }
  }

  /** On an x-sorted list, the scan from i loses nothing by stopping early. */
  lemma {:induction false} SortedScanIsFilter(points: seq<Point>, i: nat, window: Window)
    requires SortedBy(points, X)
    requires i <= |points|
    ensures SortedScan(points, i, window) == InWindow(points[i..], window)
    decreases |points| - i
  {
    if i < |points| {
      assert points[i..] == [points[i]] + points[i + 1..];
      InWindowCons(points[i], points[i + 1..], window);
      if WindowContainsPoint(window, points[i]) {
        SortedScanIsFilter(points, i + 1, window);
      } else if points[i].x > window.xMax {
        InWindowNone(points[i + 1..], window);
      } else {
        SortedScanIsFilter(points, i + 1, window);
      }
    } else {
      assert points[i..] == [];
    }
  }

  /** The result of the sorted search is ordered by x. */
  lemma SortedSearchOrdered(points: seq<Point>, window: Window)
    requires SortedBy(points, X)
    ensures SortedBy(SortedSearch(points, window), X)
  {
    var i := ScanStart(points, window);
    SortedScanIsFilter(points, i, window);
    FilterOfSortedIsSorted(points[i..], window);
  }

  lemma {:induction false} FilterOfSortedIsSorted(s: seq<Point>, window: Window)
    requires SortedBy(s, X)
    ensures SortedBy(InWindow(s, window), X)
    decreases |s|
  {
    if s != [] {
      var s' := s[..|s| - 1];
      FilterOfSortedIsSorted(s', window);
      var r' := InWindow(s', window);
      forall p | p in r' ensures p.x <= s[|s| - 1].x {
        var k :| 0 <= k < |s'| && s'[k] == p;
      }
    }
  }

  /** Scanning from the lower bound of xMin: the corrected start. */
  function CorrectedScanStart(points: seq<Point>, window: Window): (start: nat)
    ensures start <= |points|
  {
    match LowerBound(points, X, window.xMin)
    case None => |points|
    case Some(i) => i
  }

  function CorrectedSortedSearch(points: seq<Point>, window: Window): seq<Point> {
    SortedScan(points, CorrectedScanStart(points, window), window)
  }

  /** Starting at the lower bound, the sorted search equals the linear scan. */
  lemma CorrectedSortedSearchIsLinearScan(points: seq<Point>, window: Window)
    requires SortedBy(points, X)
    ensures CorrectedSortedSearch(points, window) == InWindow(points, window)
  {
    var start := CorrectedScanStart(points, window);
    SortedScanIsFilter(points, start, window);
    var below := points[..start];
    assert points == below + points[start..];
    InWindowAppend(below, points[start..], window);
    forall i | 0 <= i < |below| ensures !WindowContainsPoint(window, below[i]) {
      assert below[i] == points[i] && X(points[i]) < window.xMin;
    }
    InWindowNone(below, window);
  }

  /**
   * When at most one stored point has x equal to xMin, the search as written
   * starts at the lower bound and so equals the linear scan.
   */
  lemma SortedSearchWithoutTieIsLinearScan(points: seq<Point>, window: Window)
    requires SortedBy(points, X)
    requires forall i, j :: 0 <= i < j < |points| && points[i].x == window.xMin ==> points[j].x != window.xMin
    ensures SortedSearch(points, window) == InWindow(points, window)
  {
    var index := BinarySearch(points, X, window.xMin);
    BinarySearchCorrect(points, X, window.xMin);
    if index >= 0 {
      LowerBoundUnique(points, X, window.xMin, index);
    } else if -(index + 1) < |points| {
      LowerBoundUnique(points, X, window.xMin, -(index + 1));
    } else {
      LowerBoundNone(points, X, window.xMin);
    }
    assert ScanStart(points, window) == CorrectedScanStart(points, window);
    CorrectedSortedSearchIsLinearScan(points, window);
  }

  /**
   * With three points on the line x = xMin the binary search hits the middle
   * one, and the scan as written skips the first.
   */
  lemma SortedSearchSkipsTiedPoints(points: seq<Point>, window: Window)
    requires points == [Point(0.0, 0.0), Point(0.0, 1.0), Point(0.0, 2.0)]
    requires window == Window(0.0, 0.0, 0.0, 2.0)
    ensures SortedBy(points, X)
    ensures InWindow(points, window) == points
    ensures SortedSearch(points, window) == points[1..]
  {
    assert InWindow(points, window) == points by {
      assert points == [points[0]] + ([points[1]] + [points[2]]);
      InWindowSingleton(points[2], window);
      InWindowCons(points[1], [points[2]], window);
      InWindowCons(points[0], [points[1]] + [points[2]], window);
    }
    assert SortedSearch(points, window) == points[1..] by {
      assert ScanStart(points, window) == 1 by {
        assert BinarySearchFrom(points, X, 0.0, 0, 2) == 1 by {
          assert (0 + 2) / 2 == 1 && X(points[1]) == 0.0;
        }
      }
      assert SortedScan(points, 3, window) == [];
      assert SortedScan(points, 2, window) == [points[2]];
      assert SortedScan(points, 1, window) == [points[1], points[2]];
    }
  }
}
