/**
 * The two library services the repository relies on, stated by the contracts
 * the JDK documents: a stable sort (List.sort with Comparator.comparingDouble)
 * and Collections.binarySearch. Also the lower-bound search that the
 * repository's binary searches approximate.
 */
module Ordering {
  import opened Wrappers

  /** s is ordered non-decreasingly by key. */
  ghost predicate SortedBy<T>(s: seq<T>, key: T -> real) {
    forall i, j :: 0 <= i < j < |s| ==> key(s[i]) <= key(s[j])
  }

  /**
   * Inserts x in front of the first element whose key is not smaller than
   * x's, so that x stays ahead of the equal elements that followed it.
   */
  function InsertBy<T>(x: T, s: seq<T>, key: T -> real): (r: seq<T>)
    requires SortedBy(s, key)
    ensures SortedBy(r, key)
    ensures multiset(r) == multiset(s) + multiset{x}
    ensures r[0] == x || (s != [] && r[0] == s[0])
  {
    if s == [] || key(x) <= key(s[0]) then
      SortedCons(x, s, key);
      [x] + s
    else
      assert s == [s[0]] + s[1..];
      var rest := InsertBy(x, s[1..], key);
      SortedCons(s[0], rest, key);
      [s[0]] + rest
  }

  /** Putting an element no larger than the head in front keeps a sequence sorted. */
  lemma SortedCons<T>(x: T, s: seq<T>, key: T -> real)
    requires SortedBy(s, key)
    requires s != [] ==> key(x) <= key(s[0])
    ensures SortedBy([x] + s, key)
  {
    var r := [x] + s;
    forall i, j | 0 <= i < j < |r| ensures key(r[i]) <= key(r[j]) {
      if i > 0 {
        assert r[i] == s[i - 1] && r[j] == s[j - 1];
      } else if j > 1 {
        assert key(s[0]) <= key(s[j - 1]);
      }
    }
  }

  /** Stable insertion sort by key: the model of List.sort. */
  function SortBy<T>(s: seq<T>, key: T -> real): (r: seq<T>)
    ensures SortedBy(r, key)
    ensures multiset(r) == multiset(s)
    ensures |r| == |s|
  {
    if s == [] then []
    else
      assert s == [s[0]] + s[1..];
      var r := InsertBy(s[0], SortBy(s[1..], key), key);
      assert |r| == |multiset(r)| == |multiset(s)|;
      r
  }

  /** Sorting a sequence that is already sorted leaves it as it is. */
  lemma {:induction false} SortBySorted<T>(s: seq<T>, key: T -> real)
    requires SortedBy(s, key)
    ensures SortBy(s, key) == s
  {
    if s != [] {
      var tail := s[1..];
      assert SortedBy(tail, key) by {
        forall i, j | 0 <= i < j < |tail| ensures key(tail[i]) <= key(tail[j]) {
          assert tail[i] == s[i + 1] && tail[j] == s[j + 1];
        }
      }
      SortBySorted(tail, key);
      assert tail != [] ==> key(s[0]) <= key(tail[0]);
      assert [s[0]] + tail == s;
    }
  }

  /** The elements of s whose key is k, in the order of s. */
  function WithKey<T>(s: seq<T>, key: T -> real, k: real): seq<T>
    decreases |s|
  {
    if s == [] then []
    else (if key(s[0]) == k then [s[0]] else []) + WithKey(s[1..], key, k)
  }

  /** The tail of a sorted sequence is sorted. */
  lemma SortedTail<T>(s: seq<T>, key: T -> real)
    requires s != [] && SortedBy(s, key)
    ensures SortedBy(s[1..], key)
  {
    var tail := s[1..];
    forall i, j | 0 <= i < j < |tail| ensures key(tail[i]) <= key(tail[j]) {
      assert tail[i] == s[i + 1] && tail[j] == s[j + 1];
    }
  }

  /** The elements with key k of a sequence with y in front. */
  lemma WithKeyCons<T>(y: T, s: seq<T>, key: T -> real, k: real)
    ensures WithKey([y] + s, key, k) == (if key(y) == k then [y] else []) + WithKey(s, key, k)
  {
    assert ([y] + s)[1..] == s;
  }

  /** Inserting an element no larger than the head puts it in front. */
  lemma InsertByFront<T>(x: T, s: seq<T>, key: T -> real)
    requires SortedBy(s, key) && (s == [] || key(x) <= key(s[0]))
    ensures InsertBy(x, s, key) == [x] + s
  {
  }

  /** Inserting an element larger than the head keeps the head in front. */
  lemma InsertByPast<T>(x: T, s: seq<T>, key: T -> real)
    requires SortedBy(s, key) && s != [] && key(s[0]) < key(x)
    ensures SortedBy(s[1..], key)
    ensures InsertBy(x, s, key) == [s[0]] + InsertBy(x, s[1..], key)
  {
    SortedTail(s, key);
  }

  /** Insertion puts x ahead of every element whose key equals its own. */
  lemma {:induction false} InsertByStable<T>(x: T, s: seq<T>, key: T -> real, k: real)
    requires SortedBy(s, key)
    ensures WithKey(InsertBy(x, s, key), key, k) == (if key(x) == k then [x] else []) + WithKey(s, key, k)
    decreases |s|
  {
    if s == [] || key(x) <= key(s[0]) {
      InsertByFront(x, s, key);
      WithKeyCons(x, s, key, k);
    } else {
      InsertByPast(x, s, key);
      InsertByStable(x, s[1..], key, k);
      WithKeyStep(s[0], x, s[1..], InsertBy(x, s[1..], key), key, k);
      assert [s[0]] + s[1..] == s;
    }
  }

  /** The step of InsertByStable past a head whose key is below x's. */
  lemma WithKeyStep<T>(h: T, x: T, tail: seq<T>, ins: seq<T>, key: T -> real, k: real)
    requires key(h) < key(x)
    requires WithKey(ins, key, k) == (if key(x) == k then [x] else []) + WithKey(tail, key, k)
    ensures WithKey([h] + ins, key, k) == (if key(x) == k then [x] else []) + WithKey([h] + tail, key, k)
  {
    WithKeyCons(h, ins, key, k);
    WithKeyCons(h, tail, key, k);
  }

  /**
   * SortBy is stable: the elements with any one key come out in the order
   * they went in.
   */
  lemma {:induction false} SortByStable<T>(s: seq<T>, key: T -> real, k: real)
    ensures WithKey(SortBy(s, key), key, k) == WithKey(s, key, k)
  {
    if s != [] {
      SortByStable(s[1..], key, k);
      InsertByStable(s[0], SortBy(s[1..], key), key, k);
    }
  }

  /**
   * Collections.indexedBinarySearch on s[low..high] (inclusive bounds): the
   * index of some element whose key equals target, or -(insertion point) - 1.
   * Java halves with (low + high) >>> 1, which is (low + high) / 2 here.
   */
  function BinarySearchFrom<T>(s: seq<T>, key: T -> real, target: real, low: int, high: int): (r: int)
    requires 0 <= low <= high + 1 <= |s|
    ensures low <= r <= high || (r < 0 && low <= -(r + 1) <= high + 1)
    decreases high - low + 1
  {
    if low > high then -(low + 1)
    else
      var mid := (low + high) / 2;
      if key(s[mid]) < target then BinarySearchFrom(s, key, target, mid + 1, high)
      else if key(s[mid]) > target then BinarySearchFrom(s, key, target, low, mid - 1)
      else mid
  }

  /** Collections.binarySearch(s, target, comparingDouble(key)). */
  function BinarySearch<T>(s: seq<T>, key: T -> real, target: real): (r: int)
    ensures r < |s| && (r < 0 ==> -(r + 1) <= |s|)
  {
    BinarySearchFrom(s, key, target, 0, |s| - 1)
  }

  /** What the binary search promises on a sorted sequence. */
  ghost predicate BinarySearchResult<T>(s: seq<T>, key: T -> real, target: real, r: int) {
    (r >= 0 ==> r < |s| && key(s[r]) == target) &&
    (r < 0 ==>
       var ip := -(r + 1);
       0 <= ip <= |s| &&
       (forall i :: 0 <= i < ip ==> key(s[i]) < target) &&
       (forall i :: ip <= i < |s| ==> key(s[i]) > target))
  }

  lemma {:induction false} BinarySearchFromCorrect<T>(s: seq<T>, key: T -> real, target: real, low: int, high: int)
    requires SortedBy(s, key)
    requires 0 <= low <= high + 1 <= |s|
    requires forall i :: 0 <= i < low ==> key(s[i]) < target
    requires forall i :: high < i < |s| ==> key(s[i]) > target
    ensures BinarySearchResult(s, key, target, BinarySearchFrom(s, key, target, low, high))
    decreases high - low + 1
  {
    if low > high {
      NotFound(s, key, target, low);
    } else {
      var mid := (low + high) / 2;
      if key(s[mid]) < target {
        SortedBelow(s, key, target, low, mid);
        BinarySearchFromCorrect(s, key, target, mid + 1, high);
      } else if key(s[mid]) > target {
        SortedAbove(s, key, target, mid, high);
        BinarySearchFromCorrect(s, key, target, low, mid - 1);
      }
    }
  }

  /** An empty search range: the target belongs at low. */
  lemma NotFound<T>(s: seq<T>, key: T -> real, target: real, low: int)
    requires 0 <= low <= |s|
    requires forall i :: 0 <= i < low ==> key(s[i]) < target
    requires forall i :: low - 1 < i < |s| ==> key(s[i]) > target
    ensures BinarySearchResult(s, key, target, -(low + 1))
  {
  }

  /** A probe below the target lifts the lower end of the search past it. */
  lemma SortedBelow<T>(s: seq<T>, key: T -> real, target: real, low: int, mid: int)
    requires SortedBy(s, key)
    requires 0 <= low <= mid < |s| && key(s[mid]) < target
    requires forall i :: 0 <= i < low ==> key(s[i]) < target
    ensures forall i :: 0 <= i < mid + 1 ==> key(s[i]) < target
  {
    forall i | low <= i <= mid ensures key(s[i]) < target {
      assert key(s[i]) <= key(s[mid]);
    }
  }

  /** A probe above the target lowers the upper end of the search below it. */
  lemma SortedAbove<T>(s: seq<T>, key: T -> real, target: real, mid: int, high: int)
    requires SortedBy(s, key)
    requires 0 <= mid <= high < |s| && key(s[mid]) > target
    requires forall i :: high < i < |s| ==> key(s[i]) > target
    ensures forall i :: mid - 1 < i < |s| ==> key(s[i]) > target
  {
    forall i | mid <= i <= high ensures key(s[i]) > target {
      assert key(s[mid]) <= key(s[i]);
    }
  }

  /**
   * On a sorted sequence the search returns a hit, or the insertion point
   * encoded as -(ip) - 1 with everything before ip smaller and everything
   * from ip on larger than the target.
   */
  lemma BinarySearchCorrect<T>(s: seq<T>, key: T -> real, target: real)
    requires SortedBy(s, key)
    ensures BinarySearchResult(s, key, target, BinarySearch(s, key, target))
  {
    BinarySearchFromCorrect(s, key, target, 0, |s| - 1);
  }

  /** The position of the first element whose key is at least target, if any. */
  function LowerBound<T>(s: seq<T>, key: T -> real, target: real): (r: Option<nat>)
    ensures r.Some? ==> r.value < |s| && key(s[r.value]) >= target
    ensures r.Some? ==> forall i :: 0 <= i < r.value ==> key(s[i]) < target
    ensures r.None? ==> forall i :: 0 <= i < |s| ==> key(s[i]) < target
  {
    if s == [] then None
    else if key(s[0]) >= target then Some(0)
    else
      match LowerBound(s[1..], key, target)
      case None => None
      case Some(i) => Some(i + 1)
  }

  /** The lower bound is the only position with its defining property. */
  lemma LowerBoundUnique<T>(s: seq<T>, key: T -> real, target: real, i: nat)
    requires i < |s| && key(s[i]) >= target
    requires forall j :: 0 <= j < i ==> key(s[j]) < target
    ensures LowerBound(s, key, target) == Some(i)
  {
  }

  /** Nothing at or above the target: there is no lower bound. */
  lemma LowerBoundNone<T>(s: seq<T>, key: T -> real, target: real)
    requires forall j :: 0 <= j < |s| ==> key(s[j]) < target
    ensures LowerBound(s, key, target) == None
  {
  }

  /** Two targets that no key separates have the same lower bound. */
  lemma LowerBoundCongruent<T>(s: seq<T>, key: T -> real, a: real, b: real)
    requires forall j :: 0 <= j < |s| ==> (key(s[j]) >= a <==> key(s[j]) >= b)
    ensures LowerBound(s, key, a) == LowerBound(s, key, b)
  {
    match LowerBound(s, key, a)
    case None => LowerBoundNone(s, key, b);
    case Some(i) => LowerBoundUnique(s, key, b, i);
  }
}
