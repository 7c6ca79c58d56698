/**
 * The linked structure the Java code builds and walks. RangeTreeNode objects
 * hang off each other through leftSubtree and rightSubtree; each owns a
 * FractionalCascading whose keys its two children bridge into while they are
 * being constructed. Every node carries, as ghost state, the Tree value it
 * stands for, so that the construction and the two query loops are proved
 * against Build, FindSplit, LeftSpine and RightSpine.
 */
module RangeTrees {
  import opened Wrappers
  import opened Geometry
  import opened Ordering
  import opened Cascading
  import opened Indexing
  import opened Trees
  import opened Query

  /** The tree value of a possibly null subtree reference. */
  ghost function ModelOf(n: RangeTreeNode?): Tree
    reads n
  {
    if n == null then Nil else n.model
  }

  /** A valid node stays valid, with the same value, while nothing it owns changes. */
  twostate lemma StillValid(n: RangeTreeNode)
    requires old(n.Valid()) && unchanged(old(n.Repr))
    ensures n.Valid() && n.Repr == old(n.Repr) && n.model == old(n.model)
  {
  }

  /** An inner node made of a new node and two new subtrees owns only new objects besides its cascade. */
  twostate lemma NewInnerNode(new node: RangeTreeNode, current: FractionalCascading, new left: RangeTreeNode, new right: RangeTreeNode)
    requires fresh(node) && fresh(left.Repr) && fresh(right.Repr)
    requires node.Repr == {node, current} + left.Repr + right.Repr
    ensures fresh(node.Repr - {current})
  {
  }

  class RangeTreeNode {
    const position: real
    const associatedTree: FractionalCascading
    var leftSubtree: RangeTreeNode?
    var rightSubtree: RangeTreeNode?

    /** The tree value this node and everything below it stand for. */
    ghost var model: Tree
    ghost var Repr: set<object>

    /**
     * The node is the Tree value model: its position, its cascade's keys and
     * its children's values; the children own disjoint parts of the heap, and
     * the cascade links of the associated tree follow the subtree links.
     */
    ghost predicate Valid()
      reads this, Repr
      decreases Repr
    {
      this in Repr && associatedTree in Repr &&
      (leftSubtree != null ==>
         leftSubtree in Repr && leftSubtree.Repr <= Repr && this !in leftSubtree.Repr &&
         associatedTree !in leftSubtree.Repr && leftSubtree.Valid() && leftSubtree.model.Node? &&
         associatedTree.leftChild == leftSubtree.associatedTree) &&
      (rightSubtree != null ==>
         rightSubtree in Repr && rightSubtree.Repr <= Repr && this !in rightSubtree.Repr &&
         associatedTree !in rightSubtree.Repr && rightSubtree.Valid() && rightSubtree.model.Node? &&
         associatedTree.rightChild == rightSubtree.associatedTree) &&
      (leftSubtree != null && rightSubtree != null ==> leftSubtree.Repr !! rightSubtree.Repr) &&
      model == Node(position, associatedTree.keys, ModelOf(leftSubtree), ModelOf(rightSubtree))
    }

    /** A node without subtrees. */
    constructor (position: real, associatedTree: FractionalCascading)
      ensures this.position == position && this.associatedTree == associatedTree
      ensures leftSubtree == null && rightSubtree == null
      ensures model == Node(position, associatedTree.keys, Nil, Nil)
      ensures Repr == {this, associatedTree} && Valid()
    {
      this.position := position;
      this.associatedTree := associatedTree;
      leftSubtree := null;
      rightSubtree := null;
      model := Node(position, associatedTree.keys, Nil, Nil);
      Repr := {this, associatedTree};
    }

    method SetLeftSubtree(leftSubtree: RangeTreeNode)
      modifies this
      ensures this.leftSubtree == leftSubtree && rightSubtree == old(rightSubtree)
      ensures model == old(model) && Repr == old(Repr)
    {
      this.leftSubtree := leftSubtree;
    }

    method SetRightSubtree(rightSubtree: RangeTreeNode)
      modifies this
      ensures this.rightSubtree == rightSubtree && leftSubtree == old(leftSubtree)
      ensures model == old(model) && Repr == old(Repr)
    {
      this.rightSubtree := rightSubtree;
    }

    /**
     * Records both attached subtrees in the ghost state: afterwards the node
     * stands for the tree value made of its position, its keys and its
     * subtrees' values.
     */
    ghost method Adopt()
      requires leftSubtree != null && rightSubtree != null
      requires leftSubtree.Valid() && rightSubtree.Valid() && leftSubtree.model.Node? && rightSubtree.model.Node?
      requires this !in leftSubtree.Repr && this !in rightSubtree.Repr
      requires associatedTree !in leftSubtree.Repr && associatedTree !in rightSubtree.Repr
      requires leftSubtree.Repr !! rightSubtree.Repr
      requires associatedTree.leftChild == leftSubtree.associatedTree
      requires associatedTree.rightChild == rightSubtree.associatedTree
      modifies this
      ensures leftSubtree == old(leftSubtree) && rightSubtree == old(rightSubtree)
      ensures model == Node(position, associatedTree.keys, leftSubtree.model, rightSubtree.model)
      ensures Repr == {this, associatedTree} + leftSubtree.Repr + rightSubtree.Repr
      ensures Valid()
    {
      model := Node(position, associatedTree.keys, leftSubtree.model, rightSubtree.model);
      Repr := {this, associatedTree} + leftSubtree.Repr + rightSubtree.Repr;
    }

    /** isLeafNode: neither subtree is set. */
    function IsLeafNode(): (b: bool)
      reads this, Repr
      requires Valid()
      ensures b <==> Trees.IsLeafNode(model)
    {
      leftSubtree == null && rightSubtree == null
    }

    /** rootSearch(min), delegated to the associated tree. */
    function RootSearch(min: real): (r: Option<nat>)
      reads this, Repr
      requires Valid() && SortedBy(model.keys, KeyY)
      ensures HitOrLowerBound(model.keys, min, r)
      ensures r.None? <==> forall i :: 0 <= i < |model.keys| ==> model.keys[i].point.y < min
    {
      associatedTree.RootSearch(min)
    }

    /** report(key, window), delegated to the associated tree. */
    method Report(key: Option<nat>, window: Window) returns (points: seq<Point>)
      requires Valid()
      ensures points == ReportFrom(model.keys, key, window)
    {
      points := associatedTree.Report(key, window);
    }
  }

  /** RangeTree.SplitNodeResult over the heap: the split node and the key held there. */
  datatype SplitNode = SplitNode(node: RangeTreeNode, key: Option<nat>)

  /** The tree value of a findSplitNode outcome. */
  ghost function SplitOf(r: Result<SplitNode, JavaFault>): Result<SplitNodeResult, JavaFault>
    reads if r.Ok? then {r.value.node} else {}
  {
    match r
    case Err(e) => Err(e)
    case Ok(split) => Ok(SplitNodeResult(split.node.model, split.key))
  }

  class RangeTree {
    const root: RangeTreeNode
    const xPoints: seq<Point>

    ghost predicate Valid()
      reads this, root, root.Repr
    {
      root.Valid() && |xPoints| > 0 && SortedBy(xPoints, X) && root.model == BuildRoot(xPoints)
    }

    /**
     * Sorts a copy of the points on x and builds the tree over all of them.
     * An empty list makes Java read xPoints.get(-1); it is excluded here.
     */
    constructor (points: seq<Point>)
      requires |points| > 0
      ensures xPoints == SortBy(points, X)
      ensures Valid() && fresh(root.Repr)
      ensures TreeOK(root.model) && multiset(Points(root.model)) == multiset(points)
    {
      var sorted, r := Construct(points);
      label built:
      xPoints := sorted;
      root := r;
      new;
      StillValid@built(r);
    }

    /** The body of the constructor: sort on x and on y, then build from the root. */
    static method Construct(points: seq<Point>) returns (sorted: seq<Point>, r: RangeTreeNode)
      requires |points| > 0
      ensures sorted == SortBy(points, X) && |sorted| > 0 && SortedBy(sorted, X)
      ensures fresh(r.Repr) && r.Valid() && r.model == BuildRoot(sorted)
      ensures TreeOK(r.model) && multiset(Points(r.model)) == multiset(points)
    {
      sorted := SortBy(points, X);
      var yPoints := SortPointsOnY(sorted);
      BuildRootIsRangeTree(sorted);
      r := ConstructRangeTree(sorted, 0, |sorted|, null, yPoints, false);
    }

    /**
     * search(window): find the split node, then walk its left branch towards
     * xMin and its right branch towards xMax, collecting the reports of the
     * subtrees hanging inside the x range. The outcome, exception included,
     * is the search on the tree value.
     */
    method Search(window: Window) returns (r: Result<seq<Point>, JavaFault>)
      requires Valid()
      ensures r == SearchAsWritten(root.model, window)
    {
      var splitNodeResult := FindSplitNode(window);
      if splitNodeResult.Err? {
        return Err(splitNodeResult.error);
      }
      var splitNode := splitNodeResult.value.node;
      var splitKey := splitNodeResult.value.key;
      if splitKey.None? {
        return Err(NullPointer);
      }
      var keys := splitNode.associatedTree.keys;
      var left := LeftBranch(splitNode.leftSubtree, Bridge(keys, splitKey, true), window, []);
      if left.Err? {
        return left;
      }
      r := RightBranch(splitNode.rightSubtree, Bridge(keys, splitKey, false), window, left.value);
    }

    /** The left-branch loop of search, from leftBranch holding leftKey, after points were found. */
    static method LeftBranch(leftBranch: RangeTreeNode?, leftKey: Option<nat>, window: Window, points: seq<Point>)
      returns (r: Result<seq<Point>, JavaFault>)
      requires leftBranch != null ==> leftBranch.Valid()
      ensures r == LeftSpine(ModelOf(leftBranch), leftKey, window, points)
    {
      var branch, key, found := leftBranch, leftKey, points;
      while branch != null
        invariant branch != null ==> branch.Valid()
        invariant LeftSpine(ModelOf(branch), key, window, found) == LeftSpine(ModelOf(leftBranch), leftKey, window, points)
        decreases ModelOf(branch)
      {
        var keys := branch.associatedTree.keys;
        if branch.position < window.xMin {
          if key.None? {
            return Err(NullPointer);
          }
          branch, key := branch.rightSubtree, Bridge(keys, key, false);
        } else if branch.position > window.xMin {
          if branch.rightSubtree != null {
            if key.None? {
              return Err(NullPointer);
            }
            var reported := branch.rightSubtree.Report(Bridge(keys, key, false), window);
            found := found + reported;
          } else if branch.IsLeafNode() {
            var reported := branch.Report(key, window);
            found := found + reported;
          }
          if key.None? {
            return Err(NullPointer);
          }
          branch, key := branch.leftSubtree, Bridge(keys, key, true);
        } else {
          var reported := branch.Report(key, window);
          return Ok(found + reported);
        }
      }
      return Ok(found);
    }

    /** The right-branch loop of search, the mirror image of LeftBranch around xMax. */
    static method RightBranch(rightBranch: RangeTreeNode?, rightKey: Option<nat>, window: Window, points: seq<Point>)
      returns (r: Result<seq<Point>, JavaFault>)
      requires rightBranch != null ==> rightBranch.Valid()
      ensures r == RightSpine(ModelOf(rightBranch), rightKey, window, points)
    {
      var branch, key, found := rightBranch, rightKey, points;
      while branch != null
        invariant branch != null ==> branch.Valid()
        invariant RightSpine(ModelOf(branch), key, window, found) == RightSpine(ModelOf(rightBranch), rightKey, window, points)
        decreases ModelOf(branch)
      {
        var keys := branch.associatedTree.keys;
        if branch.position > window.xMax {
          if key.None? {
            return Err(NullPointer);
          }
          branch, key := branch.leftSubtree, Bridge(keys, key, true);
        } else if branch.position < window.xMax {
          if branch.leftSubtree != null {
            if key.None? {
              return Err(NullPointer);
            }
            var reported := branch.leftSubtree.Report(Bridge(keys, key, true), window);
            found := found + reported;
          } else if branch.IsLeafNode() {
            var reported := branch.Report(key, window);
            found := found + reported;
          }
          if key.None? {
            return Err(NullPointer);
          }
          branch, key := branch.rightSubtree, Bridge(keys, key, false);
        } else {
          var reported := branch.Report(key, window);
          return Ok(found + reported);
        }
      }
      return Ok(found);
    }

    /**
     * findSplitNode(window): from the root and the key rootSearch(xMin)
     * gives, descend until the node's position lies in [xMin, xMax].
     */
    method FindSplitNode(window: Window) returns (r: Result<SplitNode, JavaFault>)
      requires Valid()
      ensures SplitOf(r) == SplitFromRoot(root.model, window)
      ensures r.Ok? ==> r.value.node.Valid()
    {
      BuildRootIsRangeTree(xPoints);
      var currentNode: RangeTreeNode? := root;
      var fractionalCascadingKey := root.RootSearch(window.xMin);
      if fractionalCascadingKey.None? {
        return Err(IndexOutOfBounds);
      }
      ghost var expected := SplitFromRoot(root.model, window);
      while true
        invariant currentNode != null ==> currentNode.Valid()
        invariant FindSplit(ModelOf(currentNode), fractionalCascadingKey, window) == expected
        decreases ModelOf(currentNode)
      {
        if currentNode == null {
          return Err(NullPointer);
        }
        var c := CompareTo(currentNode.position, window.xMin, window.xMax);
        if c == 0 {
          return Ok(SplitNode(currentNode, fractionalCascadingKey));
        }
        if fractionalCascadingKey.None? {
          return Err(NullPointer);
        }
        var keys := currentNode.associatedTree.keys;
        if c > 0 {
          currentNode, fractionalCascadingKey := currentNode.rightSubtree, Bridge(keys, fractionalCascadingKey, false);
        } else {
          currentNode, fractionalCascadingKey := currentNode.leftSubtree, Bridge(keys, fractionalCascadingKey, true);
        }
      }
    }

    /** sortPointsOnY: tag every point with its rank, then sort stably on y. */
    static method SortPointsOnY(points: seq<Point>) returns (sortedPoints: seq<IndexedPoint>)
      ensures sortedPoints == SortedOnY(points)
    {
      var tagged := [];
      var i := 0;
      while i < |points|
        invariant 0 <= i <= |points| && |tagged| == i
        invariant forall k :: 0 <= k < i ==> tagged[k] == IndexedPoint(k, points[k])
      {
        tagged := tagged + [IndexedPoint(i, points[i])];
        i := i + 1;
      }
      assert tagged == Tag(points);
      sortedPoints := SortBy(tagged, IY);
    }

    /** constructYSubset: the entries whose rank lies in [startIndex, endIndex), in order. */
    static method ConstructYSubset(startIndex: int, endIndex: int, ySubset: seq<IndexedPoint>) returns (result: seq<IndexedPoint>)
      ensures result == YSubset(startIndex, endIndex, ySubset)
    {
      result := [];
      for i := 0 to |ySubset|
        invariant result == YSubset(startIndex, endIndex, ySubset[..i])
      {
        var indexedPoint := ySubset[i];
        assert ySubset[..i + 1][..i] == ySubset[..i];
        if startIndex <= indexedPoint.index && indexedPoint.index < endIndex {
          result := result + [indexedPoint];
        }
      }
      assert ySubset[..|ySubset|] == ySubset;
    }

    /**
     * constructRangeTree(startIndex, endIndex, parent, parentYPoints, isLhs):
     * builds the node for the ranks [startIndex, endIndex) and, when there is
     * a parent cascade, bridges the parent's keys into the new node's keys.
     * xPoints is a parameter because the Java field is read before the
     * constructor has finished.
     */
    static method ConstructRangeTree(xPoints: seq<Point>, startIndex: nat, endIndex: nat, parent: FractionalCascading?,
                                     parentYPoints: seq<IndexedPoint>, isLhs: bool) returns (node: RangeTreeNode)
      requires startIndex < endIndex && Covers(xPoints, startIndex, endIndex, parentYPoints)
      requires SortedBy(parentYPoints, IY)
      requires parent != null ==> SortedBy(parent.keys, KeyY)
      modifies parent
      ensures fresh(node.Repr) && node.Valid()
      ensures node.model == Build(xPoints, startIndex, endIndex, parentYPoints)
      ensures parent != null ==>
        parent.keys == Wire(old(parent.keys), MakeKeys(ConvertToPoints(YSubset(startIndex, endIndex, parentYPoints))), isLhs)
      ensures parent != null && isLhs ==> parent.leftChild == node.associatedTree && parent.rightChild == old(parent.rightChild)
      ensures parent != null && !isLhs ==> parent.rightChild == node.associatedTree && parent.leftChild == old(parent.leftChild)
      decreases endIndex - startIndex, 2
    {
      CoversSize(xPoints, startIndex, endIndex, parentYPoints);
      YSubsetSorted(startIndex, endIndex, parentYPoints);
      var currentYIndexedPoints := ConstructYSubset(startIndex, endIndex, parentYPoints);
      var currentYPoints := ConvertToPoints(currentYIndexedPoints);
      ConvertSorted(currentYIndexedPoints);
      var current := NewCascade(parent, currentYPoints, isLhs);
      node := ConstructNode(xPoints, startIndex, endIndex, parentYPoints, current, currentYIndexedPoints);
      forall o | o in node.Repr ensures fresh(o) {
        if o != current {
          assert o in node.Repr - {current};
        }
      }
    }

    /**
     * The rest of constructRangeTree once the node's cascade current exists:
     * a leaf for a single point, otherwise an inner node split at the median.
     */
    static method ConstructNode(xPoints: seq<Point>, startIndex: nat, endIndex: nat, parentYPoints: seq<IndexedPoint>,
                                current: FractionalCascading, ys: seq<IndexedPoint>) returns (node: RangeTreeNode)
      requires startIndex < endIndex && Covers(xPoints, startIndex, endIndex, parentYPoints)
      requires SortedBy(parentYPoints, IY) && ys == YSubset(startIndex, endIndex, parentYPoints)
      requires current.keys == MakeKeys(ConvertToPoints(ys))
      modifies current
      ensures fresh(node.Repr - {current}) && node.Valid() && node.associatedTree == current
      ensures node.model == Build(xPoints, startIndex, endIndex, parentYPoints)
      decreases endIndex - startIndex, 1
    {
      CoversSize(xPoints, startIndex, endIndex, parentYPoints);
      if |ys| == 1 {
        node := new RangeTreeNode(ConvertToPoints(ys)[0].x, current);
        BuildLeaf(xPoints, startIndex, endIndex, parentYPoints);
      } else {
        YSubsetSorted(startIndex, endIndex, parentYPoints);
        var size := endIndex - startIndex;
        var median := if size % 2 == 0 then size / 2 - 1 else size / 2;
        var leftEndIndex := startIndex + median + 1;
        var position := xPoints[median + startIndex].x;
        assert median == Median(size) && position == xPoints[leftEndIndex - 1].x;
        SplitCovers(xPoints, startIndex, leftEndIndex, endIndex, parentYPoints, ys);
        BuildInner(xPoints, startIndex, leftEndIndex, endIndex, parentYPoints, ys);
        node := ConstructInner(xPoints, startIndex, leftEndIndex, endIndex, position, current, ys);
      }
    }

    /** The cascade of a new node: a root cascade, or one bridged from its parent's. */
    static method NewCascade(parent: FractionalCascading?, currentYPoints: seq<Point>, isLhs: bool) returns (current: FractionalCascading)
      requires SortedBy(currentYPoints, Y)
      requires parent != null ==> SortedBy(parent.keys, KeyY)
      modifies parent
      ensures fresh(current) && current.keys == MakeKeys(currentYPoints) && WellOrdered(current.keys)
      ensures current.leftChild == null && current.rightChild == null
      ensures parent != null ==> parent.keys == Wire(old(parent.keys), current.keys, isLhs)
      ensures parent != null && isLhs ==> parent.leftChild == current && parent.rightChild == old(parent.rightChild)
      ensures parent != null && !isLhs ==> parent.rightChild == current && parent.leftChild == old(parent.leftChild)
    {
      MakeKeysWellOrdered(currentYPoints);
      if parent == null {
        current := new FractionalCascading(currentYPoints);
      } else {
        current := new FractionalCascading.WithParent(parent, currentYPoints, isLhs);
      }
    }

    /**
     * The inner node at position over the cascade current: the left half is
     * built first and bridges current's left pointers, then the right half
     * bridges its right pointers.
     */
    static method ConstructInner(xPoints: seq<Point>, startIndex: nat, leftEndIndex: nat, endIndex: nat,
                                 position: real, current: FractionalCascading, ys: seq<IndexedPoint>)
      returns (node: RangeTreeNode)
      requires startIndex < leftEndIndex < endIndex
      requires Covers(xPoints, startIndex, leftEndIndex, ys) && Covers(xPoints, leftEndIndex, endIndex, ys)
      requires SortedBy(ys, IY) && current.keys == MakeKeys(ConvertToPoints(ys))
      modifies current
      ensures fresh(node.Repr - {current}) && node.Valid() && node.associatedTree == current
      ensures node.model == Node(position, InnerKeys(ys, startIndex, leftEndIndex, endIndex),
                                 Build(xPoints, startIndex, leftEndIndex, ys), Build(xPoints, leftEndIndex, endIndex, ys))
      decreases endIndex - startIndex, 0
    {
      ConvertSorted(ys);
      MakeKeysWellOrdered(ConvertToPoints(ys));
      ghost var leftKeys := MakeKeys(ConvertToPoints(YSubset(startIndex, leftEndIndex, ys)));
      WireKeepsPoints(current.keys, leftKeys, true);
      var left := ConstructRangeTree(xPoints, startIndex, leftEndIndex, current, ys, true);
      label between:
      var right := ConstructRangeTree(xPoints, leftEndIndex, endIndex, current, ys, false);
      StillValid@between(left);
      node := Join(position, current, left, right);
      NewInnerNode(node, current, left, right);
    }

    /** An inner node over its cascade and two finished subtrees. */
    static method Join(position: real, current: FractionalCascading, left: RangeTreeNode, right: RangeTreeNode)
      returns (node: RangeTreeNode)
      requires left.Valid() && right.Valid() && left.model.Node? && right.model.Node?
      requires current !in left.Repr && current !in right.Repr && left.Repr !! right.Repr
      requires current.leftChild == left.associatedTree && current.rightChild == right.associatedTree
      ensures fresh(node) && node.associatedTree == current && node.Valid()
      ensures node.Repr == {node, current} + left.Repr + right.Repr
      ensures node.model == Node(position, current.keys, left.model, right.model)
    {
      node := new RangeTreeNode(position, current);
      node.SetLeftSubtree(left);
      node.SetRightSubtree(right);
      node.Adopt();
    }
  }
}
