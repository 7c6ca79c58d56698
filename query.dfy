/**
 * RangeTree.findSplitNode and RangeTree.search on the tree value, twice:
 * as the Java code runs, where a null dereference or a read past the end of
 * a key list ends the query with an exception, and a corrected search whose
 * result is proved to be exactly the points in the window.
 */
module Query {
  import opened Wrappers
  import opened Geometry
  import opened Ordering
  import opened Cascading
  import opened Indexing
  import opened Trees

  /** The exceptions the Java search can end in. */
  datatype JavaFault = NullPointer | IndexOutOfBounds

  /** RangeTree.SplitNodeResult: the split node and the key the search holds there. */
  datatype SplitNodeResult = SplitNodeResult(node: Tree, key: Option<nat>)

  /**
   * getLeftChild / getRightChild of the key at position k of a node's keys:
   * a position into the child's keys, or None for null.
   */
  function Bridge(keys: seq<FractionalCascadingKey>, key: Option<nat>, isLhs: bool): Option<nat> {
    match key
    case None => None
    case Some(k) =>
      if k < |keys| then (if isLhs then keys[k].leftChild else keys[k].rightChild) else None
  }

  /**
   * The loop of findSplitNode from node t holding key: descend right while
   * the position is below xMin and left while it is above xMax. Stepping to
   * a child dereferences the key, and comparing dereferences the node.
   */
  function FindSplit(t: Tree, key: Option<nat>, window: Window): (r: Result<SplitNodeResult, JavaFault>)
    ensures r.Ok? ==> r.value.node.Node? &&
                      CompareTo(r.value.node.position, window.xMin, window.xMax) == 0
    decreases t
  {
    match t
    case Nil => Err(NullPointer)
    case Node(position, keys, left, right) =>
      var c := CompareTo(position, window.xMin, window.xMax);
      if c == 0 then Ok(SplitNodeResult(t, key))
      else if key.None? then Err(NullPointer)
      else if c > 0 then FindSplit(right, Bridge(keys, key, false), window)
      else FindSplit(left, Bridge(keys, key, true), window)
  }

  /**
   * The left-branch loop of search, from leftBranch t holding leftKey key,
   * with the points found so far in acc.
   */
  function LeftSpine(t: Tree, key: Option<nat>, window: Window, acc: seq<Point>): Result<seq<Point>, JavaFault>
    decreases t
  {
    match t
    case Nil => Ok(acc)
    case Node(position, keys, left, right) =>
      if position < window.xMin then
        if key.None? then Err(NullPointer)
        else LeftSpine(right, Bridge(keys, key, false), window, acc)
      else if position > window.xMin then
        if right.Node? then
          if key.None? then Err(NullPointer)
          else LeftSpine(left, Bridge(keys, key, true), window, acc + ReportFrom(right.keys, Bridge(keys, key, false), window))
        else
          var found := if left.Nil? then acc + ReportFrom(keys, key, window) else acc;
          if key.None? then Err(NullPointer)
          else LeftSpine(left, Bridge(keys, key, true), window, found)
      else
        Ok(acc + ReportFrom(keys, key, window))
  }

  /** The right-branch loop of search, the mirror image of LeftSpine around xMax. */
  function RightSpine(t: Tree, key: Option<nat>, window: Window, acc: seq<Point>): Result<seq<Point>, JavaFault>
    decreases t
  {
    match t
    case Nil => Ok(acc)
    case Node(position, keys, left, right) =>
      if position > window.xMax then
        if key.None? then Err(NullPointer)
        else RightSpine(left, Bridge(keys, key, true), window, acc)
      else if position < window.xMax then
        if left.Node? then
          if key.None? then Err(NullPointer)
          else RightSpine(right, Bridge(keys, key, false), window, acc + ReportFrom(left.keys, Bridge(keys, key, true), window))
        else
          var found := if right.Nil? then acc + ReportFrom(keys, key, window) else acc;
          if key.None? then Err(NullPointer)
          else RightSpine(right, Bridge(keys, key, false), window, found)
      else
        Ok(acc + ReportFrom(keys, key, window))
  }

  /**
   * findSplitNode from the root: the root key comes from rootSearch(xMin),
   * which reads past the end of the root's keys when every y is below xMin.
   */
  function SplitFromRoot(root: Tree, window: Window): (r: Result<SplitNodeResult, JavaFault>)
    ensures root.Node? && Locate(root.keys, window.xMin).None? ==> r == Err(IndexOutOfBounds)
    ensures r.Ok? ==> r.value.node.Node? && CompareTo(r.value.node.position, window.xMin, window.xMax) == 0
  {
    if root.Nil? then Err(NullPointer)
    else
      match Locate(root.keys, window.xMin)
      case None => Err(IndexOutOfBounds)
      case Some(seed) => FindSplit(root, Some(seed), window)
  }

  /**
   * RangeTree.search as written: the split node's key is dereferenced for
   * both branches, then the two branch loops run one after the other.
   */
  function SearchAsWritten(root: Tree, window: Window): Result<seq<Point>, JavaFault> {
    match SplitFromRoot(root, window)
    case Err(e) => Err(e)
    case Ok(split) =>
      if split.key.None? then Err(NullPointer)
      else
        match LeftSpine(split.node.left, Bridge(split.node.keys, split.key, true), window, [])
        case Err(e) => Err(e)
        case Ok(points) => RightSpine(split.node.right, Bridge(split.node.keys, split.key, false), window, points)
  }

  // ---------------------------------------------------------------------
  // The corrected search: the root key is the lower bound of yMin, a null
  // key reports nothing instead of failing, and a leaf split node is
  // reported.
  // ---------------------------------------------------------------------

  function LeftSpineFixed(t: Tree, key: Option<nat>, window: Window): seq<Point>
    decreases t
  {
    match t
    case Nil => []
    case Node(position, keys, left, right) =>
      if position < window.xMin then
        LeftSpineFixed(right, Bridge(keys, key, false), window)
      else if position > window.xMin then
        (if right.Node? then ReportFrom(right.keys, Bridge(keys, key, false), window)
         else if left.Nil? then ReportFrom(keys, key, window)
         else []) +
        LeftSpineFixed(left, Bridge(keys, key, true), window)
      else
        ReportFrom(keys, key, window)
  }

  function RightSpineFixed(t: Tree, key: Option<nat>, window: Window): seq<Point>
    decreases t
  {
    match t
    case Nil => []
    case Node(position, keys, left, right) =>
      if position > window.xMax then
        RightSpineFixed(left, Bridge(keys, key, true), window)
      else if position < window.xMax then
        (if left.Node? then ReportFrom(left.keys, Bridge(keys, key, true), window)
         else if right.Nil? then ReportFrom(keys, key, window)
         else []) +
        RightSpineFixed(right, Bridge(keys, key, false), window)
      else
        ReportFrom(keys, key, window)
  }

  function SearchFromFixed(t: Tree, key: Option<nat>, window: Window): seq<Point>
    decreases t
  {
    match t
    case Nil => []
    case Node(position, keys, left, right) =>
      var c := CompareTo(position, window.xMin, window.xMax);
      if c > 0 then SearchFromFixed(right, Bridge(keys, key, false), window)
      else if c < 0 then SearchFromFixed(left, Bridge(keys, key, true), window)
      else if left.Nil? && right.Nil? then ReportFrom(keys, key, window)
      else LeftSpineFixed(left, Bridge(keys, key, true), window) +
           RightSpineFixed(right, Bridge(keys, key, false), window)
  }

  /** The corrected search: seeded with rootSearch(yMin), never failing. */
  function SearchFixed(root: Tree, window: Window): seq<Point> {
    if root.Nil? then [] else SearchFromFixed(root, Locate(root.keys, window.yMin), window)
  }

  // ---------------------------------------------------------------------
  // What the search as written does guarantee: whatever it returns without
  // an exception is correct, with no point repeated, though it may miss
  // points (see the Findings lemmas).
  // ---------------------------------------------------------------------

  /** A subtree's points in the window are among its parent's. */
  lemma ChildInWindowWithin(t: Tree, window: Window)
    requires TreeOK(t) && !IsLeafNode(t)
    ensures multiset(InWindow(Points(t.left), window)) <= multiset(InWindow(Points(t), window))
    ensures multiset(InWindow(Points(t.right), window)) <= multiset(InWindow(Points(t), window))
  {
    InnerInWindow(t, window);
  }

  lemma {:induction false} LeftSpineSound(t: Tree, key: Option<nat>, window: Window, acc: seq<Point>)
    requires t.Nil? || TreeOK(t)
    requires LeftSpine(t, key, window, acc).Ok?
    ensures multiset(LeftSpine(t, key, window, acc).value) <= multiset(acc) + multiset(InWindow(Points(t), window))
    decreases t
  {
    if t.Node? {
      ReportFromWithin(t.keys, key, window);
      if !IsLeafNode(t) {
        InnerInWindow(t, window);
        ReportFromWithin(t.right.keys, Bridge(t.keys, key, false), window);
        if t.position < window.xMin {
          LeftSpineSound(t.right, Bridge(t.keys, key, false), window, acc);
        } else if t.position > window.xMin {
          var found := acc + ReportFrom(t.right.keys, Bridge(t.keys, key, false), window);
          LeftSpineSound(t.left, Bridge(t.keys, key, true), window, found);
        }
      }
    }
  }

  lemma {:induction false} RightSpineSound(t: Tree, key: Option<nat>, window: Window, acc: seq<Point>)
    requires t.Nil? || TreeOK(t)
    requires RightSpine(t, key, window, acc).Ok?
    ensures multiset(RightSpine(t, key, window, acc).value) <= multiset(acc) + multiset(InWindow(Points(t), window))
    decreases t
  {
    if t.Node? {
      ReportFromWithin(t.keys, key, window);
      if !IsLeafNode(t) {
        InnerInWindow(t, window);
        ReportFromWithin(t.left.keys, Bridge(t.keys, key, true), window);
        if t.position > window.xMax {
          RightSpineSound(t.left, Bridge(t.keys, key, true), window, acc);
        } else if t.position < window.xMax {
          var found := acc + ReportFrom(t.left.keys, Bridge(t.keys, key, true), window);
          RightSpineSound(t.right, Bridge(t.keys, key, false), window, found);
        }
      }
    }
  }

  lemma {:induction false} FindSplitWithin(t: Tree, key: Option<nat>, window: Window)
    requires TreeOK(t) && FindSplit(t, key, window).Ok?
    ensures var split := FindSplit(t, key, window).value;
            TreeOK(split.node) &&
            multiset(InWindow(Points(split.node), window)) <= multiset(InWindow(Points(t), window))
    decreases t
  {
    var c := CompareTo(t.position, window.xMin, window.xMax);
    if c != 0 && !IsLeafNode(t) {
      ChildInWindowWithin(t, window);
      if c > 0 {
        FindSplitWithin(t.right, Bridge(t.keys, key, false), window);
      } else {
        FindSplitWithin(t.left, Bridge(t.keys, key, true), window);
      }
    }
  }

  /**
   * On a well-formed tree, a search as written that ends without an exception
   * returns only points in the window, none more often than the tree holds it.
   */
  lemma SearchAsWrittenSound(root: Tree, window: Window)
    requires TreeOK(root) && SearchAsWritten(root, window).Ok?
    ensures multiset(SearchAsWritten(root, window).value) <= multiset(InWindow(Points(root), window))
  {
    var seed := Locate(root.keys, window.xMin);
    var split := FindSplit(root, Some(seed.value), window).value;
    FindSplitWithin(root, Some(seed.value), window);
    var node := split.node;
    var points := LeftSpine(node.left, Bridge(node.keys, split.key, true), window, []).value;
    if !IsLeafNode(node) {
      InnerInWindow(node, window);
    }
    LeftSpineSound(node.left, Bridge(node.keys, split.key, true), window, []);
    RightSpineSound(node.right, Bridge(node.keys, split.key, false), window, points);
  }

  /** The range tree's search as written never returns a point outside the window, nor one twice too often. */
  lemma SearchAsWrittenNeverWrong(points: seq<Point>, window: Window)
    requires |points| > 0
    requires SearchAsWritten(BuildRoot(SortBy(points, X)), window).Ok?
    ensures var r := SearchAsWritten(BuildRoot(SortBy(points, X)), window).value;
            multiset(r) <= multiset(InWindow(points, window)) &&
            forall p :: p in r ==> p in points && WindowContainsPoint(window, p)
  {
    var xPoints := SortBy(points, X);
    var r := SearchAsWritten(BuildRoot(xPoints), window).value;
    SortedOnYCovers(xPoints);
    BuildIsRangeTree(xPoints, 0, |xPoints|, SortedOnY(xPoints));
    SearchAsWrittenSound(BuildRoot(xPoints), window);
    InWindowPermutation(Points(BuildRoot(xPoints)), points, window);
    forall p | p in r ensures p in points && WindowContainsPoint(window, p) {
      assert p in multiset(r);
      assert p in multiset(InWindow(points, window));
    }
  }

  // ---------------------------------------------------------------------
  // Correctness of the corrected search.
  // ---------------------------------------------------------------------

  /** The points of an inner node's subtrees are among its own points. */
  lemma ChildPointsAmongParent(t: Tree, isLhs: bool)
    requires TreeOK(t) && !IsLeafNode(t)
    ensures forall p :: p in Points(if isLhs then t.left else t.right) ==> p in Points(t)
  {
    forall p | p in Points(if isLhs then t.left else t.right) ensures p in Points(t) {
      assert p in multiset(Points(if isLhs then t.left else t.right));
      assert p in multiset(Points(t));
    }
  }

  /** Where some key of a y-sorted list has y at least yMin, so does rootSearch's key, and no earlier one than it. */
  lemma AboveBoundFromKey(keys: seq<FractionalCascadingKey>, k: nat, m: nat, yMin: real)
    requires SortedBy(keys, KeyY) && k < |keys| && m < |keys|
    requires HitOrLowerBound(keys, yMin, Some(k))
    ensures KeyY(keys[m]) >= yMin ==> KeyY(keys[m]) >= KeyY(keys[k]) || KeyY(keys[k]) == yMin
    ensures KeyY(keys[m]) >= KeyY(keys[k]) ==> KeyY(keys[m]) >= yMin
  {
    if KeyY(keys[k]) != yMin && KeyY(keys[m]) >= yMin {
      assert k <= m;
    }
  }

  /**
   * Following a bridge of a y-sorted key list whose child holds a subset of
   * its points, from the key rootSearch returns for yMin (or from the lower
   * bound of yMin), lands on the lower bound of yMin in the child.
   */
  lemma BridgeTarget(keys: seq<FractionalCascadingKey>, childKeys: seq<FractionalCascadingKey>,
                     key: Option<nat>, isLhs: bool, yMin: real)
    requires SortedBy(keys, KeyY) && Bridges(keys, childKeys, isLhs)
    requires forall j :: 0 <= j < |childKeys| ==> childKeys[j].point in KeyPoints(keys)
    requires HitOrLowerBound(keys, yMin, key)
    ensures Bridge(keys, key, isLhs) == LowerBound(childKeys, KeyY, yMin)
  {
    if key.None? {
      forall j | 0 <= j < |childKeys| ensures KeyY(childKeys[j]) < yMin {
        var m :| 0 <= m < |keys| && KeyPoints(keys)[m] == childKeys[j].point;
        assert KeyY(keys[m]) < yMin;
      }
      LowerBoundNone(childKeys, KeyY, yMin);
    } else {
      var k := key.value;
      var y := keys[k].point.y;
      assert Bridge(keys, key, isLhs) == LowerBound(childKeys, KeyY, y);
      forall j | 0 <= j < |childKeys|
        ensures KeyY(childKeys[j]) >= y <==> KeyY(childKeys[j]) >= yMin
      {
        var m :| 0 <= m < |keys| && KeyPoints(keys)[m] == childKeys[j].point;
        AboveBoundFromKey(keys, k, m, yMin);
        assert KeyY(keys[m]) == KeyY(childKeys[j]);
      }
      LowerBoundCongruent(childKeys, KeyY, y, yMin);
    }
  }

  /** Following a bridge of an inner node from rootSearch's key lands on the child's lower bound. */
  lemma BridgeFindsLowerBound(t: Tree, key: Option<nat>, isLhs: bool, yMin: real)
    requires TreeOK(t) && !IsLeafNode(t)
    requires HitOrLowerBound(t.keys, yMin, key)
    ensures var child := if isLhs then t.left else t.right;
            child.Node? && Bridge(t.keys, key, isLhs) == LowerBound(child.keys, KeyY, yMin)
  {
    ChildPointsAmongParent(t, isLhs);
    var child := if isLhs then t.left else t.right;
    forall j | 0 <= j < |child.keys| ensures child.keys[j].point in KeyPoints(t.keys) {
      assert child.keys[j].point == Points(child)[j];
    }
    BridgeTarget(t.keys, (if isLhs then t.left else t.right).keys, key, isLhs, yMin);
  }

  /** Subtree points are on the stated side of an inner node's position. */
  lemma SkippedSideIsOutside(t: Tree, window: Window)
    requires TreeOK(t) && !IsLeafNode(t)
    ensures t.position < window.xMin ==> InWindow(Points(t.left), window) == []
    ensures t.position > window.xMax ==> InWindow(Points(t.right), window) == []
  {
    var l := Points(t.left);
    var r := Points(t.right);
    if t.position < window.xMin {
      forall i | 0 <= i < |l| ensures !WindowContainsPoint(window, l[i]) {
        assert l[i] in l;
      }
      InWindowNone(l, window);
    }
    if t.position > window.xMax {
      forall i | 0 <= i < |r| ensures !WindowContainsPoint(window, r[i]) {
        assert r[i] in r;
      }
      InWindowNone(r, window);
    }
  }

  /** An inner node's filter is the union of its subtrees' filters. */
  lemma InnerInWindow(t: Tree, window: Window)
    requires TreeOK(t) && !IsLeafNode(t)
    ensures multiset(InWindow(Points(t), window)) ==
            multiset(InWindow(Points(t.left), window)) + multiset(InWindow(Points(t.right), window))
  {
    InWindowUnion(Points(t), Points(t.left), Points(t.right), window);
  }

  /** A leaf's single point; reported from its lower bound, or absent when outside the x range. */
  lemma LeafReport(t: Tree, key: Option<nat>, window: Window)
    requires TreeOK(t) && IsLeafNode(t)
    requires HitOrLowerBound(t.keys, window.yMin, key)
    ensures ReportFrom(t.keys, key, window) == InWindow(Points(t), window)
    ensures t.position < window.xMin || t.position > window.xMax ==> InWindow(Points(t), window) == []
  {
    var p := t.keys[0].point;
    assert Points(t) == [p];
    InWindowSingleton(p, window);
    if KeyY(t.keys[0]) >= window.yMin {
      LowerBoundUnique(t.keys, KeyY, window.yMin, 0);
    }
    ReportFromLowerBound(t.keys, window);
  }

  /** One step of the corrected left branch at an inner node, given the step below it. */
  lemma LeftSpineStep(t: Tree, key: Option<nat>, window: Window)
    requires TreeOK(t) && !IsLeafNode(t) && key == LowerBound(t.keys, KeyY, window.yMin)
    requires t.position < window.xMin ==>
               multiset(LeftSpineFixed(t.right, Bridge(t.keys, key, false), window)) == multiset(InWindow(Points(t.right), window))
    requires t.position > window.xMin ==>
               multiset(LeftSpineFixed(t.left, Bridge(t.keys, key, true), window)) == multiset(InWindow(Points(t.left), window))
    ensures multiset(LeftSpineFixed(t, key, window)) == multiset(InWindow(Points(t), window))
  {
    if t.position < window.xMin {
      SkippedSideIsOutside(t, window);
      InnerInWindow(t, window);
    } else if t.position > window.xMin {
      BridgeFindsLowerBound(t, key, false, window.yMin);
      ReportFromLowerBound(t.right.keys, window);
      InnerInWindow(t, window);
    } else {
      ReportFromLowerBound(t.keys, window);
    }
  }

  /** The corrected left branch finds exactly the subtree's points in the window. */
  lemma {:induction false} LeftSpineFixedCorrect(t: Tree, key: Option<nat>, window: Window)
    requires TreeOK(t) && key == LowerBound(t.keys, KeyY, window.yMin)
    ensures multiset(LeftSpineFixed(t, key, window)) == multiset(InWindow(Points(t), window))
    decreases t
  {
    if IsLeafNode(t) {
      LeafReport(t, key, window);
    } else {
      if t.position < window.xMin {
        BridgeFindsLowerBound(t, key, false, window.yMin);
        LeftSpineFixedCorrect(t.right, Bridge(t.keys, key, false), window);
      } else if t.position > window.xMin {
        BridgeFindsLowerBound(t, key, true, window.yMin);
        LeftSpineFixedCorrect(t.left, Bridge(t.keys, key, true), window);
      }
      LeftSpineStep(t, key, window);
    }
  }

  /** One step of the corrected right branch at an inner node, given the step below it. */
  lemma RightSpineStep(t: Tree, key: Option<nat>, window: Window)
    requires TreeOK(t) && !IsLeafNode(t) && key == LowerBound(t.keys, KeyY, window.yMin)
    requires t.position > window.xMax ==>
               multiset(RightSpineFixed(t.left, Bridge(t.keys, key, true), window)) == multiset(InWindow(Points(t.left), window))
    requires t.position < window.xMax ==>
               multiset(RightSpineFixed(t.right, Bridge(t.keys, key, false), window)) == multiset(InWindow(Points(t.right), window))
    ensures multiset(RightSpineFixed(t, key, window)) == multiset(InWindow(Points(t), window))
  {
    if t.position > window.xMax {
      SkippedSideIsOutside(t, window);
      InnerInWindow(t, window);
    } else if t.position < window.xMax {
      BridgeFindsLowerBound(t, key, true, window.yMin);
      ReportFromLowerBound(t.left.keys, window);
      InnerInWindow(t, window);
    } else {
      ReportFromLowerBound(t.keys, window);
    }
  }

  /** The corrected right branch finds exactly the subtree's points in the window. */
  lemma {:induction false} RightSpineFixedCorrect(t: Tree, key: Option<nat>, window: Window)
    requires TreeOK(t) && key == LowerBound(t.keys, KeyY, window.yMin)
    ensures multiset(RightSpineFixed(t, key, window)) == multiset(InWindow(Points(t), window))
    decreases t
  {
    if IsLeafNode(t) {
      LeafReport(t, key, window);
    } else {
      if t.position > window.xMax {
        BridgeFindsLowerBound(t, key, true, window.yMin);
        RightSpineFixedCorrect(t.left, Bridge(t.keys, key, true), window);
      } else if t.position < window.xMax {
        BridgeFindsLowerBound(t, key, false, window.yMin);
        RightSpineFixedCorrect(t.right, Bridge(t.keys, key, false), window);
      }
      RightSpineStep(t, key, window);
    }
  }

  /** One step of the corrected search at an inner node, given the searches below it. */
  lemma SearchFromStep(t: Tree, key: Option<nat>, window: Window)
    requires TreeOK(t) && !IsLeafNode(t)
    requires t.position < window.xMin ==>
               multiset(SearchFromFixed(t.right, Bridge(t.keys, key, false), window)) == multiset(InWindow(Points(t.right), window))
    requires window.xMin <= t.position && window.xMax < t.position ==>
               multiset(SearchFromFixed(t.left, Bridge(t.keys, key, true), window)) == multiset(InWindow(Points(t.left), window))
    requires window.xMin <= t.position <= window.xMax ==>
               multiset(LeftSpineFixed(t.left, Bridge(t.keys, key, true), window)) == multiset(InWindow(Points(t.left), window)) &&
               multiset(RightSpineFixed(t.right, Bridge(t.keys, key, false), window)) == multiset(InWindow(Points(t.right), window))
    ensures multiset(SearchFromFixed(t, key, window)) == multiset(InWindow(Points(t), window))
  {
    InnerInWindow(t, window);
    SkippedSideIsOutside(t, window);
  }

  /** From any node holding rootSearch's key for yMin, the corrected search is exact. */
  lemma {:induction false} SearchFromFixedCorrect(t: Tree, key: Option<nat>, window: Window)
    requires TreeOK(t) && HitOrLowerBound(t.keys, window.yMin, key)
    ensures multiset(SearchFromFixed(t, key, window)) == multiset(InWindow(Points(t), window))
    decreases t
  {
    if IsLeafNode(t) {
      LeafReport(t, key, window);
    } else {
      var c := CompareTo(t.position, window.xMin, window.xMax);
      if c > 0 {
        BridgeFindsLowerBound(t, key, false, window.yMin);
        SearchFromFixedCorrect(t.right, Bridge(t.keys, key, false), window);
      } else if c < 0 {
        BridgeFindsLowerBound(t, key, true, window.yMin);
        SearchFromFixedCorrect(t.left, Bridge(t.keys, key, true), window);
      } else {
        BridgeFindsLowerBound(t, key, true, window.yMin);
        BridgeFindsLowerBound(t, key, false, window.yMin);
        LeftSpineFixedCorrect(t.left, Bridge(t.keys, key, true), window);
        RightSpineFixedCorrect(t.right, Bridge(t.keys, key, false), window);
      }
      SearchFromStep(t, key, window);
    }
  }

  /** On a well-formed tree the corrected search returns each point in the window once. */
  lemma SearchFixedCorrect(root: Tree, window: Window)
    requires TreeOK(root)
    ensures multiset(SearchFixed(root, window)) == multiset(InWindow(Points(root), window))
  {
    LocateFinds(root.keys, window.yMin);
    SearchFromFixedCorrect(root, Locate(root.keys, window.yMin), window);
  }

  /**
   * The range tree of a non-empty point list, searched with the corrected
   * search, returns a permutation of the linear scan PointsInRange performs.
   */
  lemma SearchIsLinearScan(points: seq<Point>, window: Window)
    requires |points| > 0
    ensures var xPoints := SortBy(points, X);
            multiset(SearchFixed(BuildRoot(xPoints), window)) == multiset(InWindow(points, window))
  {
    var xPoints := SortBy(points, X);
    SortedOnYCovers(xPoints);
    BuildIsRangeTree(xPoints, 0, |xPoints|, SortedOnY(xPoints));
    SearchFixedCorrect(BuildRoot(xPoints), window);
    InWindowPermutation(Points(BuildRoot(xPoints)), points, window);
  }
}
