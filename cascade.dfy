/**
 * The per-node secondary structure of the range tree
 * (com.satanja.rangetree.FractionalCascadingKey and FractionalCascading):
 * the node's points sorted by y, each wrapped as a key that knows its own
 * position and carries bridges into the two children's key lists.
 *
 * A bridge is the position of the target key in the child's list, which is
 * the target key's own `index`; an absent bridge stands for a null reference.
 */
module Cascading {
  import opened Wrappers
  import opened Geometry
  import opened Ordering

  /** FractionalCascadingKey: a point, its position, and two bridges. */
  datatype FractionalCascadingKey = FractionalCascadingKey(
    point: Point, index: nat, leftChild: Option<nat>, rightChild: Option<nat>)
  {
    predicate HasLeftChild() { leftChild.Some? }

    predicate HasRightChild() { rightChild.Some? }

    /** setLeft: replaces the left bridge and nothing else. */
    function SetLeft(bridge: Option<nat>): (k: FractionalCascadingKey)
      ensures k.leftChild == bridge && k.HasLeftChild() == bridge.Some?
      ensures k.point == point && k.index == index && k.rightChild == rightChild
    {
      this.(leftChild := bridge)
    }

    /** setRight: replaces the right bridge and nothing else. */
    function SetRight(bridge: Option<nat>): (k: FractionalCascadingKey)
      ensures k.rightChild == bridge && k.HasRightChild() == bridge.Some?
      ensures k.point == point && k.index == index && k.leftChild == leftChild
    {
      this.(rightChild := bridge)
    }
  }

  /** The key constructor: the given point and index, no bridges. */
  function NewKey(point: Point, index: nat): (k: FractionalCascadingKey)
    ensures k.point == point && k.index == index
    ensures !k.HasLeftChild() && !k.HasRightChild()
  {
    FractionalCascadingKey(point, index, None, None)
  }

  function KeyY(k: FractionalCascadingKey): real { k.point.y }

  /** The points of a key list, in order. */
  function KeyPoints(keys: seq<FractionalCascadingKey>): (r: seq<Point>)
    ensures |r| == |keys|
  {
    seq(|keys|, i requires 0 <= i < |keys| => keys[i].point)
  }

  /** Every key knows its own position. */
  ghost predicate Indexed(keys: seq<FractionalCascadingKey>) {
    forall i :: 0 <= i < |keys| ==> keys[i].index == i
  }

  /** The invariant of a cascade's key list: indexed and ordered by y. */
  ghost predicate WellOrdered(keys: seq<FractionalCascadingKey>) {
    Indexed(keys) && SortedBy(keys, KeyY)
  }

  /** The keys the cascade constructor creates: the i-th point becomes a key with index i. */
  function MakeKeys(points: seq<Point>): (keys: seq<FractionalCascadingKey>)
    ensures Indexed(keys) && KeyPoints(keys) == points
    ensures forall i :: 0 <= i < |keys| ==> !keys[i].HasLeftChild() && !keys[i].HasRightChild()
  {
    seq(|points|, i requires 0 <= i < |points| => NewKey(points[i], i))
  }

  /** Wrapping y-sorted points keeps them y-sorted. */
  lemma MakeKeysWellOrdered(points: seq<Point>)
    requires SortedBy(points, Y)
    ensures WellOrdered(MakeKeys(points))
  {
    var keys := MakeKeys(points);
    forall i, j | 0 <= i < j < |keys| ensures KeyY(keys[i]) <= KeyY(keys[j]) {
      assert keys[i].point == points[i] && keys[j].point == points[j];
    }
  }

  /**
   * The key a parent key becomes once the child's key list is known: on the
   * chosen side it bridges to the first child key whose y is not below its own,
   * and it keeps its old bridge when there is none.
   */
  function Bridged(k: FractionalCascadingKey, childKeys: seq<FractionalCascadingKey>, isLhs: bool): FractionalCascadingKey {
    match LowerBound(childKeys, KeyY, k.point.y)
    case None => k
    case Some(j) => if isLhs then k.SetLeft(Some(j)) else k.SetRight(Some(j))
  }

  /** The parent's key list after a child has wired its bridges into it. */
  function Wire(parentKeys: seq<FractionalCascadingKey>, childKeys: seq<FractionalCascadingKey>, isLhs: bool): seq<FractionalCascadingKey> {
    seq(|parentKeys|, i requires 0 <= i < |parentKeys| => Bridged(parentKeys[i], childKeys, isLhs))
  }

  /**
   * After wiring, a parent key with some child key at or above its y bridges
   * to the first such key on the chosen side; the other side, the points and
   * the indices are untouched.
   */
  lemma WireSetsLowerBounds(parentKeys: seq<FractionalCascadingKey>, childKeys: seq<FractionalCascadingKey>, isLhs: bool, i: nat)
    requires i < |parentKeys|
    ensures var w := Wire(parentKeys, childKeys, isLhs);
            var lb := LowerBound(childKeys, KeyY, parentKeys[i].point.y);
            |w| == |parentKeys| &&
            w[i].point == parentKeys[i].point && w[i].index == parentKeys[i].index &&
            (isLhs ==> w[i].rightChild == parentKeys[i].rightChild &&
                       w[i].leftChild == if lb.Some? then lb else parentKeys[i].leftChild) &&
            (!isLhs ==> w[i].leftChild == parentKeys[i].leftChild &&
                        w[i].rightChild == if lb.Some? then lb else parentKeys[i].rightChild)
  {
  }

  /** Wiring changes only bridges: the points and the order of the keys stay. */
  lemma WireKeepsPoints(parentKeys: seq<FractionalCascadingKey>, childKeys: seq<FractionalCascadingKey>, isLhs: bool)
    ensures KeyPoints(Wire(parentKeys, childKeys, isLhs)) == KeyPoints(parentKeys)
    ensures WellOrdered(parentKeys) ==> WellOrdered(Wire(parentKeys, childKeys, isLhs))
  {
    var w := Wire(parentKeys, childKeys, isLhs);
    assert forall i :: 0 <= i < |w| ==> w[i].point == parentKeys[i].point && w[i].index == parentKeys[i].index;
    assert KeyPoints(w) == KeyPoints(parentKeys);
  }

  /** The lower bound of a y value depends only on the keys' points, not on their bridges. */
  lemma LowerBoundSamePoints(a: seq<FractionalCascadingKey>, b: seq<FractionalCascadingKey>, target: real)
    requires KeyPoints(a) == KeyPoints(b)
    ensures LowerBound(a, KeyY, target) == LowerBound(b, KeyY, target)
  {
    assert forall j :: 0 <= j < |a| ==> KeyY(a[j]) == KeyPoints(a)[j].y == KeyY(b[j]);
    match LowerBound(a, KeyY, target)
    case None => LowerBoundNone(b, KeyY, target);
    case Some(i) => LowerBoundUnique(b, KeyY, target, i);
  }

  /**
   * The forward scan of FractionalCascading.report from position i: each
   * point in the window is kept, and the scan ends after the first point
   * whose y exceeds yMax.
   */
  function Scan(keys: seq<FractionalCascadingKey>, i: nat, window: Window): seq<Point>
    decreases |keys| - i
  {
    if i >= |keys| then []
    else
      var point := keys[i].point;
      (if WindowContainsPoint(window, point) then [point] else []) +
      (if point.y > window.yMax then [] else Scan(keys, i + 1, window))
  }

  /**
   * One step of the scan at position i: with next the points found so far
   * after looking at key i, either the scan stops there or it goes on at i + 1.
   */
  lemma ScanStep(keys: seq<FractionalCascadingKey>, i: nat, window: Window, found: seq<Point>, next: seq<Point>)
    requires i < |keys|
    requires next == if WindowContainsPoint(window, keys[i].point) then found + [keys[i].point] else found
    ensures found + Scan(keys, i, window) ==
            if keys[i].point.y > window.yMax then next else next + Scan(keys, i + 1, window)
  {
  }

  /** report(startKey, window): nothing for a null start key, else the scan from its index. */
  function ReportFrom(keys: seq<FractionalCascadingKey>, startKey: Option<nat>, window: Window): seq<Point> {
    match startKey
    case None => []
    case Some(i) => Scan(keys, i, window)
  }

  /** The first position at or after i whose y exceeds yMax, or the end of the list. */
  function StopIndex(keys: seq<FractionalCascadingKey>, i: nat, window: Window): (stop: nat)
    requires i <= |keys|
    ensures i <= stop <= |keys|
    decreases |keys| - i
  {
    if i == |keys| || keys[i].point.y > window.yMax then i else StopIndex(keys, i + 1, window)
  }

  /**
   * The scan from i returns exactly the window's points among the keys from i
   * up to the stop position, in key order.
   */
  lemma {:induction false} ScanIsFilterUpToStop(keys: seq<FractionalCascadingKey>, i: nat, window: Window)
    requires i <= |keys|
    ensures Scan(keys, i, window) == InWindow(KeyPoints(keys)[i..StopIndex(keys, i, window)], window)
    decreases |keys| - i
  {
    var pts := KeyPoints(keys);
    var stop := StopIndex(keys, i, window);
    if i == |keys| || keys[i].point.y > window.yMax {
      assert pts[i..stop] == [];
    } else {
      ScanIsFilterUpToStop(keys, i + 1, window);
      InWindowSliceCons(pts, i, stop, window);
      assert pts[i] == keys[i].point;
    }
  }

  /**
   * Started at the lower bound of yMin in a y-sorted key list, report returns
   * exactly the linear scan of the list's points.
   */
  lemma ReportFromLowerBound(keys: seq<FractionalCascadingKey>, window: Window)
    requires SortedBy(keys, KeyY)
    ensures ReportFrom(keys, LowerBound(keys, KeyY, window.yMin), window) == InWindow(KeyPoints(keys), window)
  {
    var pts := KeyPoints(keys);
    var lb := LowerBound(keys, KeyY, window.yMin);
    if lb.None? {
      BelowNotInWindow(keys, 0, |keys|, window);
      assert pts[0..|keys|] == pts;
    } else {
      ScanFromLowerBound(keys, lb.value, window);
    }
  }

  lemma ScanFromLowerBound(keys: seq<FractionalCascadingKey>, i: nat, window: Window)
    requires SortedBy(keys, KeyY)
    requires i < |keys| && forall j :: 0 <= j < i ==> KeyY(keys[j]) < window.yMin
    ensures Scan(keys, i, window) == InWindow(KeyPoints(keys), window)
  {
    var pts := KeyPoints(keys);
    var stop := StopIndex(keys, i, window);
    ScanIsFilterUpToStop(keys, i, window);
    StopIndexBeyond(keys, i, window);
    BelowNotInWindow(keys, 0, i, window);
    AboveNotInWindow(keys, stop, window);
    SplitInWindow(pts, i, stop, window);
    var middle := InWindow(pts[i..stop], window);
    assert InWindow(pts, window) == [] + middle + [];
    assert [] + middle + [] == middle;
  }

  lemma SplitInWindow(pts: seq<Point>, i: nat, stop: nat, window: Window)
    requires i <= stop <= |pts|
    ensures InWindow(pts, window) == InWindow(pts[0..i], window) + InWindow(pts[i..stop], window) + InWindow(pts[stop..], window)
  {
    assert pts == (pts[0..i] + pts[i..stop]) + pts[stop..];
    InWindowAppend(pts[0..i] + pts[i..stop], pts[stop..], window);
    InWindowAppend(pts[0..i], pts[i..stop], window);
  }

  lemma BelowNotInWindow(keys: seq<FractionalCascadingKey>, from: nat, to: nat, window: Window)
    requires from <= to <= |keys|
    requires forall j :: from <= j < to ==> KeyY(keys[j]) < window.yMin
    ensures InWindow(KeyPoints(keys)[from..to], window) == []
  {
    var s := KeyPoints(keys)[from..to];
    forall j | 0 <= j < |s| ensures !WindowContainsPoint(window, s[j]) {
      assert s[j] == keys[from + j].point;
    }
    InWindowNone(s, window);
  }

  lemma AboveNotInWindow(keys: seq<FractionalCascadingKey>, from: nat, window: Window)
    requires from <= |keys|
    requires forall j :: from <= j < |keys| ==> keys[j].point.y > window.yMax
    ensures InWindow(KeyPoints(keys)[from..], window) == []
  {
    var s := KeyPoints(keys)[from..];
    forall j | 0 <= j < |s| ensures !WindowContainsPoint(window, s[j]) {
      assert s[j] == keys[from + j].point;
    }
    InWindowNone(s, window);
  }

  /**
   * From any start key, report returns some of the list's points in the
   * window, each at most as often as the list holds it.
   */
  lemma ReportFromWithin(keys: seq<FractionalCascadingKey>, startKey: Option<nat>, window: Window)
    ensures multiset(ReportFrom(keys, startKey, window)) <= multiset(InWindow(KeyPoints(keys), window))
  {
    if startKey.Some? && startKey.value <= |keys| {
      var i := startKey.value;
      var stop := StopIndex(keys, i, window);
      ScanIsFilterUpToStop(keys, i, window);
      SplitInWindow(KeyPoints(keys), i, stop, window);
    }
  }

  /** In a y-sorted list nothing from the stop position on is below yMax. */
  lemma StopIndexBeyond(keys: seq<FractionalCascadingKey>, i: nat, window: Window)
    requires SortedBy(keys, KeyY)
    requires i <= |keys|
    ensures forall j :: StopIndex(keys, i, window) <= j < |keys| ==> keys[j].point.y > window.yMax
    decreases |keys| - i
  {
    if i < |keys| && keys[i].point.y <= window.yMax {
      StopIndexBeyond(keys, i + 1, window);
    }
  }

  /**
   * FractionalCascading.rootSearch on a key list: the binary search hit, or
   * the key at the insertion point. When the insertion point is the end of
   * the list, Java reads past the end; that case is None here.
   */
  function Locate(keys: seq<FractionalCascadingKey>, min: real): (r: Option<nat>)
    ensures r.Some? ==> r.value < |keys|
  {
    var index := BinarySearch(keys, KeyY, min);
    if index < 0 then
      var insertion := -1 * (index + 1);
      if insertion < |keys| then Some(insertion) else None
    else Some(index)
  }

  /** Java's rootSearch answer is the lower bound, or a later key with y equal to min. */
  ghost predicate HitOrLowerBound(keys: seq<FractionalCascadingKey>, min: real, k: Option<nat>) {
    k == LowerBound(keys, KeyY, min) ||
    (k.Some? && k.value < |keys| && keys[k.value].point.y == min)
  }

  /**
   * On a y-sorted list: when some key has y equal to min, rootSearch returns
   * one such key (not necessarily the first); otherwise it returns the first
   * key with a larger y; there is no key exactly when every y is below min.
   */
  lemma LocateFinds(keys: seq<FractionalCascadingKey>, min: real)
    requires SortedBy(keys, KeyY)
    ensures var r := Locate(keys, min);
            HitOrLowerBound(keys, min, r) &&
            (r.None? <==> forall i :: 0 <= i < |keys| ==> keys[i].point.y < min) &&
            (r.Some? ==> keys[r.value].point.y >= min &&
                         forall i :: 0 <= i < r.value ==> keys[i].point.y <= min) &&
            ((exists i :: 0 <= i < |keys| && keys[i].point.y == min) ==> r.Some? && keys[r.value].point.y == min) &&
            (r.Some? && keys[r.value].point.y > min ==> r == LowerBound(keys, KeyY, min))
  {
    var index := BinarySearch(keys, KeyY, min);
    BinarySearchCorrect(keys, KeyY, min);
    if index < 0 {
      var insertion := -1 * (index + 1);
      if insertion < |keys| {
        LowerBoundUnique(keys, KeyY, min, insertion);
      } else {
        LowerBoundNone(keys, KeyY, min);
      }
    }
  }

  /** FractionalCascading: a node's y-ordered keys and links to its children's cascades. */
  class FractionalCascading {
    var keys: seq<FractionalCascadingKey>
    var leftChild: FractionalCascading?
    var rightChild: FractionalCascading?

    /** Wraps the y-sorted points as keys 0, 1, 2, ... */
    constructor (sortedKeys: seq<Point>)
      ensures keys == MakeKeys(sortedKeys)
      ensures leftChild == null && rightChild == null
    {
      var wrapped := WrapKeys(sortedKeys);
      keys := wrapped;
      leftChild := null;
      rightChild := null;
    }

    /** Wraps the points, then wires the parent's bridges on the given side into them. */
    constructor WithParent(parent: FractionalCascading, sortedKeysSubset: seq<Point>, isLhs: bool)
      requires SortedBy(parent.keys, KeyY) && SortedBy(sortedKeysSubset, Y)
      modifies parent
      ensures keys == MakeKeys(sortedKeysSubset)
      ensures leftChild == null && rightChild == null
      ensures parent.keys == Wire(old(parent.keys), keys, isLhs)
      ensures isLhs ==> parent.leftChild == this && parent.rightChild == old(parent.rightChild)
      ensures !isLhs ==> parent.rightChild == this && parent.leftChild == old(parent.leftChild)
    {
      var wrapped := WrapKeys(sortedKeysSubset);
      keys := wrapped;
      leftChild := null;
      rightChild := null;
      new;
      MakeKeysWellOrdered(sortedKeysSubset);
      UpdatePointers(parent, isLhs);
    }

    /** The loop of the first constructor. */
    static method WrapKeys(sortedKeys: seq<Point>) returns (keys: seq<FractionalCascadingKey>)
      ensures keys == MakeKeys(sortedKeys)
    {
      keys := [];
      for i := 0 to |sortedKeys|
        invariant keys == MakeKeys(sortedKeys[..i])
      {
        keys := keys + [NewKey(sortedKeys[i], i)];
      }
      assert sortedKeys[..|sortedKeys|] == sortedKeys;
    }

    /** rootSearch(min); the contract holds because the keys are y-sorted. */
    function RootSearch(min: real): (r: Option<nat>)
      reads this
      requires SortedBy(keys, KeyY)
      ensures HitOrLowerBound(keys, min, r)
      ensures r.None? <==> forall i :: 0 <= i < |keys| ==> keys[i].point.y < min
    {
      LocateFinds(keys, min);
      Locate(keys, min)
    }

    /** report(startKey, window): a forward scan that stops after the first y above yMax. */
    method Report(startKey: Option<nat>, window: Window) returns (result: seq<Point>)
      ensures result == ReportFrom(keys, startKey, window)
    {
      if startKey.None? {
        return [];
      }
      result := [];
      var i := startKey.value;
      while i < |keys|
        invariant startKey.value <= i
        invariant result + Scan(keys, i, window) == Scan(keys, startKey.value, window)
        decreases |keys| - i
      {
        var point := keys[i].point;
        ghost var before := result;
        if WindowContainsPoint(window, point) {
          result := result + [point];
        }
        ScanStep(keys, i, window, before, result);
        if point.y > window.yMax {
          break;
        }
        i := i + 1;
      }
    }

    method SetLeftChild(leftChild: FractionalCascading)
      modifies this
      ensures this.leftChild == leftChild
      ensures keys == old(keys) && rightChild == old(rightChild)
    {
      this.leftChild := leftChild;
    }

    method SetRightChild(rightChild: FractionalCascading)
      modifies this
      ensures this.rightChild == rightChild
      ensures keys == old(keys) && leftChild == old(leftChild)
    {
      this.rightChild := rightChild;
    }

    /**
     * updatePointers: links the parent to this cascade, then walks both
     * y-sorted key lists with two cursors, bridging each parent key on the
     * chosen side to the first key here whose y is not below its own.
     */
    method UpdatePointers(parent: FractionalCascading, isLhs: bool)
      requires parent != this
      requires SortedBy(parent.keys, KeyY) && SortedBy(keys, KeyY)
      modifies parent
      ensures parent.keys == Wire(old(parent.keys), keys, isLhs)
      ensures isLhs ==> parent.leftChild == this && parent.rightChild == old(parent.rightChild)
      ensures !isLhs ==> parent.rightChild == this && parent.leftChild == old(parent.leftChild)
    {
      var indexParent := 0;
      var indexCurrent := 0;
      ghost var original := parent.keys;

      if isLhs {
        parent.SetLeftChild(this);
      } else {
        parent.SetRightChild(this);
      }

      while indexParent < |parent.keys| && indexCurrent < |keys|
        invariant |parent.keys| == |original|
        invariant 0 <= indexParent <= |original| && 0 <= indexCurrent <= |keys|
        invariant forall m :: 0 <= m < indexParent ==> parent.keys[m] == Bridged(original[m], keys, isLhs)
        invariant forall m :: indexParent <= m < |original| ==> parent.keys[m] == original[m]
        invariant indexParent < |original| ==>
                    forall j :: 0 <= j < indexCurrent ==> keys[j].point.y < original[indexParent].point.y
        invariant isLhs ==> parent.leftChild == this && parent.rightChild == old(parent.rightChild)
        invariant !isLhs ==> parent.rightChild == this && parent.leftChild == old(parent.leftChild)
        decreases |original| - indexParent + |keys| - indexCurrent
      {
        var parentKey := parent.keys[indexParent];
        ghost var startCurrent := indexCurrent;
        while indexCurrent < |keys|
          invariant startCurrent <= indexCurrent <= |keys|
          invariant forall j :: 0 <= j < indexCurrent ==> keys[j].point.y < parentKey.point.y
          decreases |keys| - indexCurrent
        {
          var childKey := keys[indexCurrent];
          if parentKey.point.y <= childKey.point.y {
            LowerBoundUnique(keys, KeyY, parentKey.point.y, indexCurrent);
            assert Bridged(original[indexParent], keys, isLhs) ==
                   if isLhs then parentKey.SetLeft(Some(indexCurrent)) else parentKey.SetRight(Some(indexCurrent));
            if isLhs {
              parent.keys := parent.keys[indexParent := parentKey.SetLeft(Some(indexCurrent))];
              indexParent := indexParent + 1;
            } else {
              parent.keys := parent.keys[indexParent := parentKey.SetRight(Some(indexCurrent))];
              indexParent := indexParent + 1;
            }
            break;
          }
          indexCurrent := indexCurrent + 1;
        }
      }

      FinishWire(original, keys, isLhs, indexParent, indexCurrent, parent.keys);
    }
  }

  /**
   * When updatePointers' loop ends, the parent keys it did not reach have no
   * bridge to set: every child key lies below them.
   */
  lemma FinishWire(original: seq<FractionalCascadingKey>, childKeys: seq<FractionalCascadingKey>, isLhs: bool,
                   done: nat, scanned: nat, current: seq<FractionalCascadingKey>)
    requires SortedBy(original, KeyY) && |current| == |original| && done <= |original| && scanned <= |childKeys|
    requires done == |original| || scanned == |childKeys|
    requires forall m :: 0 <= m < done ==> current[m] == Bridged(original[m], childKeys, isLhs)
    requires forall m :: done <= m < |original| ==> current[m] == original[m]
    requires done < |original| ==> forall j :: 0 <= j < scanned ==> childKeys[j].point.y < original[done].point.y
    ensures current == Wire(original, childKeys, isLhs)
  {
    forall m | done <= m < |original|
      ensures current[m] == Bridged(original[m], childKeys, isLhs)
    {
      assert KeyY(original[done]) <= KeyY(original[m]);
      forall j | 0 <= j < |childKeys| ensures KeyY(childKeys[j]) < original[m].point.y {
        assert childKeys[j].point.y < original[done].point.y;
      }
      LowerBoundNone(childKeys, KeyY, original[m].point.y);
    }
  }
}
