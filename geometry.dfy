/**
 * Points, query windows and the closed-rectangle containment test
 * (com.satanja.rangetree.Point, Window and com.satanja.util.WindowUtils).
 */
module Geometry {

  /** A point of the plane. Coordinates are only ever compared. */
  datatype Point = Point(x: real, y: real)

  /** An axis-parallel query rectangle [xMin, xMax] x [yMin, yMax]. */
  datatype Window = Window(xMin: real, xMax: real, yMin: real, yMax: real)

  function X(p: Point): real { p.x }

  function Y(p: Point): real { p.y }

  /** WindowUtils.windowContainsPoint: all four bounds are inclusive. */
  predicate WindowContainsPoint(window: Window, point: Point) {
    window.xMin <= point.x && point.x <= window.xMax &&
    window.yMin <= point.y && point.y <= window.yMax
  }

  /** A point on any edge or corner of the window is contained in it. */
  lemma BoundaryIsContained(window: Window, point: Point)
    requires window.xMin <= window.xMax && window.yMin <= window.yMax
    requires ((point.x == window.xMin || point.x == window.xMax) && window.yMin <= point.y <= window.yMax) ||
             ((point.y == window.yMin || point.y == window.yMax) && window.xMin <= point.x <= window.xMax)
    ensures WindowContainsPoint(window, point)
    ensures WindowContainsPoint(window, Point(window.xMin, window.yMin))
    ensures WindowContainsPoint(window, Point(window.xMin, window.yMax))
    ensures WindowContainsPoint(window, Point(window.xMax, window.yMin))
    ensures WindowContainsPoint(window, Point(window.xMax, window.yMax))
  {
  }

  /** A window with a crossed x or y range contains no point at all. */
  lemma CrossedWindowIsEmpty(window: Window, point: Point)
    requires window.xMin > window.xMax || window.yMin > window.yMax
    ensures !WindowContainsPoint(window, point)
  {
  }

  /**
   * The points of s that lie in the window, in the order of s: the result of
   * one linear scan (PointsInRange.search).
   */
  function InWindow(s: seq<Point>, window: Window): (r: seq<Point>)
    ensures |r| <= |s|
    ensures forall p :: p in r ==> p in s && WindowContainsPoint(window, p)
  {
    if s == [] then []
    else
      var last := s[|s| - 1];
      InWindow(s[..|s| - 1], window) + (if WindowContainsPoint(window, last) then [last] else [])
  }

  /** Filtering distributes over concatenation. */
  lemma {:induction false} InWindowAppend(a: seq<Point>, b: seq<Point>, window: Window)
    ensures InWindow(a + b, window) == InWindow(a, window) + InWindow(b, window)
    decreases |b|
  {
    if b == [] {
      assert a + b == a;
    } else {
      var b' := b[..|b| - 1];
      assert (a + b)[..|a + b| - 1] == a + b';
      InWindowAppend(a, b', window);
    }
  }

  /** The filter of a one-element sequence. */
  lemma InWindowSingleton(p: Point, window: Window)
    ensures InWindow([p], window) == if WindowContainsPoint(window, p) then [p] else []
  {
    assert [p][..0] == [];
  }

  /** Filtering from the front, as a forward scan sees it. */
  lemma InWindowCons(p: Point, s: seq<Point>, window: Window)
    ensures InWindow([p] + s, window) == (if WindowContainsPoint(window, p) then [p] else []) + InWindow(s, window)
  {
    InWindowAppend([p], s, window);
    InWindowSingleton(p, window);
  }

  /** Filtering a slice from its first element. */
  lemma InWindowSliceCons(s: seq<Point>, i: nat, j: nat, window: Window)
    requires i < j <= |s|
    ensures InWindow(s[i..j], window) == (if WindowContainsPoint(window, s[i]) then [s[i]] else []) + InWindow(s[i + 1..j], window)
  {
    assert s[i..j] == [s[i]] + s[i + 1..j];
    InWindowCons(s[i], s[i + 1..j], window);
  }

  /**
   * Every point of s inside the window is kept with its multiplicity, and no
   * other point is kept.
   */
  lemma {:induction false} InWindowCount(s: seq<Point>, window: Window, p: Point)
    ensures multiset(InWindow(s, window))[p] ==
            if WindowContainsPoint(window, p) then multiset(s)[p] else 0
    decreases |s|
  {
    if s != [] {
      var s' := s[..|s| - 1];
      assert s == s' + [s[|s| - 1]];
      InWindowCount(s', window, p);
    }
  }

  /** Filters of two permutations of one another are permutations of one another. */
  lemma InWindowPermutation(a: seq<Point>, b: seq<Point>, window: Window)
    requires multiset(a) == multiset(b)
    ensures multiset(InWindow(a, window)) == multiset(InWindow(b, window))
  {
    forall p ensures multiset(InWindow(a, window))[p] == multiset(InWindow(b, window))[p] {
      InWindowCount(a, window, p);
      InWindowCount(b, window, p);
    }
  }

  /** The filter of a union of multisets is the union of the filters. */
  lemma InWindowUnion(s: seq<Point>, a: seq<Point>, b: seq<Point>, window: Window)
    requires multiset(s) == multiset(a) + multiset(b)
    ensures multiset(InWindow(s, window)) == multiset(InWindow(a, window)) + multiset(InWindow(b, window))
  {
    InWindowPermutation(s, a + b, window);
    InWindowAppend(a, b, window);
  }

  /** Filtering a sub-multiset keeps a sub-multiset. */
  lemma InWindowMonotone(a: seq<Point>, b: seq<Point>, window: Window)
    requires multiset(a) <= multiset(b)
    ensures multiset(InWindow(a, window)) <= multiset(InWindow(b, window))
  {
    forall p ensures multiset(InWindow(a, window))[p] <= multiset(InWindow(b, window))[p] {
      InWindowCount(a, window, p);
      InWindowCount(b, window, p);
    }
  }

  /** A sequence whose points all lie outside the window filters to nothing. */
  lemma {:induction false} InWindowNone(s: seq<Point>, window: Window)
    requires forall i :: 0 <= i < |s| ==> !WindowContainsPoint(window, s[i])
    ensures InWindow(s, window) == []
    decreases |s|
  {
    if s != [] {
      InWindowNone(s[..|s| - 1], window);
    }
  }

  /** r is obtained from s by deleting elements, keeping the order of the rest. */
  ghost predicate SubsequenceOf<T>(r: seq<T>, s: seq<T>)
    decreases |s|
  {
    if r == [] then true
    else if s == [] then false
    else
      (r[|r| - 1] == s[|s| - 1] && SubsequenceOf(r[..|r| - 1], s[..|s| - 1])) ||
      SubsequenceOf(r, s[..|s| - 1])
  }

  /** The linear scan keeps the stored order. */
  lemma {:induction false} InWindowIsSubsequence(s: seq<Point>, window: Window)
    ensures SubsequenceOf(InWindow(s, window), s)
    decreases |s|
  {
    if s != [] {
      var s' := s[..|s| - 1];
      InWindowIsSubsequence(s', window);
      var r := InWindow(s, window);
      if WindowContainsPoint(window, s[|s| - 1]) {
        assert r[..|r| - 1] == InWindow(s', window);
      } else {
        assert r == InWindow(s', window);
      }
    }
  }
}
