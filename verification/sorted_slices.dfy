/**
 * The two sorted-slice helpers of consistent_hashing.go: bisect (a lower-bound
 * search) and insertSorted (an insertion after equal elements), both built on
 * sort.Search, with the facts about sorted sequences the ring relies on.
 */
module SortedSlices {
  import opened SortSearch
  import opened Slices

  ghost predicate Sorted(s: seq<int>) {
    forall i, j | 0 <= i <= j < |s| :: s[i] <= s[j]
  }

  ghost predicate StrictlyIncreasing(s: seq<int>) {
    forall i, j | 0 <= i < j < |s| :: s[i] < s[j]
  }

  lemma StrictlyIncreasingIsSorted(s: seq<int>)
    requires StrictlyIncreasing(s)
    ensures Sorted(s)
  {
  }

  // ---------------------------------------------------------------- bisect

  /** The values of bisect's predicate `keys[i] >= key` at every index. */
  function AtLeast(keys: seq<int>, key: int): (f: seq<bool>)
    ensures |f| == |keys|
    ensures forall k | 0 <= k < |keys| :: f[k] == (keys[k] >= key)
  {
    seq(|keys|, k requires 0 <= k < |keys| => keys[k] >= key)
  }

  /** What bisect(keys, key) returns: sort.Search over `keys[i] >= key`. */
  function LowerBound(keys: seq<int>, key: int): (i: nat)
    ensures i <= |keys|
  {
    Search(AtLeast(keys, key))
  }

  /** i splits keys into the elements below key and those at or above it. */
  ghost predicate IsLowerBound(keys: seq<int>, key: int, i: int) {
    && 0 <= i <= |keys|
    && (forall k | 0 <= k < i :: keys[k] < key)
    && (forall k | i <= k < |keys| :: key <= keys[k])
  }

  /** On sorted keys, bisect returns the first index whose key is at least the probe, or |keys| when there is none. */
  lemma LowerBoundSplits(keys: seq<int>, key: int)
    requires Sorted(keys)
    ensures IsLowerBound(keys, key, LowerBound(keys, key))
  {
    SearchFindsFirst(AtLeast(keys, key));
  }

  /** The split point of sorted keys is unique, so it is what bisect returns. */
  lemma LowerBoundIs(keys: seq<int>, key: int, i: int)
    requires Sorted(keys)
    requires IsLowerBound(keys, key, i)
    ensures LowerBound(keys, key) == i
  {
    var f := AtLeast(keys, key);
    SearchFindsFirst(f);
    assert FirstTrueAt(f, i);
    FirstTrueUnique(f, i, LowerBound(keys, key));
  }

  /** bisect: the binary-search loop of sort.Search with the predicate `keys[h] >= key`. */
  method Bisect(keys: seq<int>, key: int) returns (i: nat)
    ensures i == LowerBound(keys, key)
    ensures Sorted(keys) ==> IsLowerBound(keys, key, i)
  {
    var lo, hi := 0, |keys|;
    while lo < hi
      invariant 0 <= lo <= hi <= |keys|
      invariant SearchIn(AtLeast(keys, key), lo, hi) == LowerBound(keys, key)
      decreases hi - lo
    {
      var h := (lo + hi) / 2;
      if !(keys[h] >= key) {
        lo := h + 1;
      } else {
        hi := h;
      }
    }
    i := lo;
    if Sorted(keys) {
      LowerBoundSplits(keys, key);
    }
  }

  // ---------------------------------------------------------- insertSorted

  /** The values of insertSorted's predicate `s[i] > ele` at every index. */
  function Above(s: seq<int>, ele: int): (f: seq<bool>)
    ensures |f| == |s|
    ensures forall k | 0 <= k < |s| :: f[k] == (s[k] > ele)
  {
    seq(|s|, k requires 0 <= k < |s| => s[k] > ele)
  }

  /** Where insertSorted puts ele: sort.Search over `s[i] > ele`. */
  function UpperBound(s: seq<int>, ele: int): (i: nat)
    ensures i <= |s|
  {
    Search(Above(s, ele))
  }

  /** i splits s into the elements at or below ele and those above it. */
  ghost predicate IsUpperBound(s: seq<int>, ele: int, i: int) {
    && 0 <= i <= |s|
    && (forall k | 0 <= k < i :: s[k] <= ele)
    && (forall k | i <= k < |s| :: ele < s[k])
  }

  /** On a sorted s the insertion point lies after every element equal to ele and before every larger one. */
  lemma UpperBoundSplits(s: seq<int>, ele: int)
    requires Sorted(s)
    ensures IsUpperBound(s, ele, UpperBound(s, ele))
  {
    SearchFindsFirst(Above(s, ele));
  }

  /** The split point of sorted s around ele is unique, so it is where insertSorted inserts. */
  lemma UpperBoundIs(s: seq<int>, ele: int, i: int)
    requires Sorted(s)
    requires IsUpperBound(s, ele, i)
    ensures UpperBound(s, ele) == i
  {
    var f := Above(s, ele);
    SearchFindsFirst(f);
    assert FirstTrueAt(f, i);
    FirstTrueUnique(f, i, UpperBound(s, ele));
  }

  /** Inserting x where nothing before it is larger and nothing after it is smaller keeps s sorted. */
  lemma InsertKeepsSorted(s: seq<int>, i: nat, x: int)
    requires Sorted(s) && i <= |s|
    requires forall k | 0 <= k < i :: s[k] <= x
    requires forall k | i <= k < |s| :: x <= s[k]
    ensures Sorted(Insert(s, i, x))
  {
    var r := Insert(s, i, x);
    forall a, b | 0 <= a <= b < |r| ensures r[a] <= r[b] {
      if a < i && i < b {
        assert r[a] == s[a] && r[b] == s[b - 1];
      }
    }
  }

  /** Inserting x strictly between its neighbours keeps s strictly increasing. */
  lemma InsertKeepsStrictlyIncreasing(s: seq<int>, i: nat, x: int)
    requires StrictlyIncreasing(s) && i <= |s|
    requires forall k | 0 <= k < i :: s[k] < x
    requires forall k | i <= k < |s| :: x < s[k]
    ensures StrictlyIncreasing(Insert(s, i, x))
  {
    var r := Insert(s, i, x);
    forall a, b | 0 <= a < b < |r| ensures r[a] < r[b] {
      if a < i && i < b {
        assert r[a] == s[a] && r[b] == s[b - 1];
      }
    }
  }

  /** Removing one element keeps s strictly increasing. */
  lemma DeleteKeepsStrictlyIncreasing(s: seq<int>, i: nat)
    requires StrictlyIncreasing(s) && i < |s|
    ensures StrictlyIncreasing(Delete(s, i, i + 1))
  {
    var r := Delete(s, i, i + 1);
    forall a, b | 0 <= a < b < |r| ensures r[a] < r[b] {
      if a < i && i <= b {
        assert r[a] == s[a] && r[b] == s[b + 1];
      }
    }
  }

  /**
   * insertSorted(s, ele): append ele, find the first element above ele with
   * sort.Search, shift the tail one place right with copy, and write ele there.
   * The search runs over the |s| original elements; the source searches the
   * appended slice instead, which can overrun it (see AsWritten). On unsorted
   * input the two can also differ without overrunning: for s = [0, 0, 0, 9, 0]
   * and ele = 5 the appended search stops at index 3, this one at index 5;
   * the two agree whenever s is sorted and the source does not overrun.
   */
  method InsertSorted(s: seq<int>, ele: int) returns (r: seq<int>)
    ensures r == Insert(s, UpperBound(s, ele), ele)
    ensures multiset(r) == multiset(s) + multiset{ele}
    ensures Sorted(s) ==> Sorted(r)
    ensures Sorted(s) ==> forall k | 0 <= k < UpperBound(s, ele) :: r[k] <= ele
    ensures Sorted(s) ==> forall k | UpperBound(s, ele) < k < |r| :: ele < r[k]
  {
    var n := |s|;
    var a := new int[n + 1](k => if 0 <= k < n then s[k] else ele);
    assert a[..] == s + [ele];
    var lo, hi := 0, n;
    while lo < hi
      invariant 0 <= lo <= hi <= n
      invariant SearchIn(Above(s, ele), lo, hi) == UpperBound(s, ele)
      decreases hi - lo
    {
      var h := (lo + hi) / 2;
      if !(a[h] > ele) {
        lo := h + 1;
      } else {
        hi := h;
      }
    }
    var i := lo;
    forall k | i < k <= n {
      a[k] := a[k - 1];
    }
    a[i] := ele;
    r := a[..];
    assert r == Insert(s, i, ele) by {
      assert forall k | 0 <= k < i :: r[k] == s[k];
      assert forall k | i < k <= n :: r[k] == s[k - 1];
    }
    InsertMultiset(s, i, ele);
    if Sorted(s) {
      UpperBoundSplits(s, ele);
      InsertKeepsSorted(s, i, ele);
    }
  }

  // ------------------------------------------ bisect after a ring change

  /** Where bisect lands once x has been inserted at its own lower bound i. */
  lemma LowerBoundAfterInsert(keys: seq<int>, i: nat, x: int, key: int)
    requires Sorted(keys)
    requires IsLowerBound(keys, x, i)
    ensures Sorted(Insert(keys, i, x))
    ensures LowerBound(Insert(keys, i, x), key)
            == if key <= x then LowerBound(keys, key) else LowerBound(keys, key) + 1
  {
    var r := Insert(keys, i, x);
    InsertKeepsSorted(keys, i, x);
    LowerBoundSplits(keys, key);
    var j := LowerBound(keys, key);
    if key <= x {
      assert i < |keys| ==> x <= keys[i];
      assert j <= i;
      LowerBoundIs(r, key, j);
    } else {
      assert j < |keys| ==> key <= keys[j];
      assert i <= j;
      assert forall k | 0 <= k < j + 1 :: r[k] < key by {
        forall k | 0 <= k < j + 1 ensures r[k] < key {
          if i < k {
            assert r[k] == keys[k - 1];
          }
        }
      }
      LowerBoundIs(r, key, j + 1);
    }
  }

  /** Where bisect lands once the element at index i has been removed. */
  lemma LowerBoundAfterDelete(keys: seq<int>, i: nat, key: int)
    requires Sorted(keys) && i < |keys|
    ensures Sorted(Delete(keys, i, i + 1))
    ensures LowerBound(Delete(keys, i, i + 1), key)
            == if LowerBound(keys, key) <= i then LowerBound(keys, key) else LowerBound(keys, key) - 1
  {
    var r := Delete(keys, i, i + 1);
    assert Sorted(r) by {
      forall a, b | 0 <= a <= b < |r| ensures r[a] <= r[b] {
        if a < i && i <= b {
          assert r[a] == keys[a] && r[b] == keys[b + 1];
        }
      }
    }
    LowerBoundSplits(keys, key);
    var j := LowerBound(keys, key);
    if j <= i {
      LowerBoundIs(r, key, j);
    } else {
      LowerBoundIs(r, key, j - 1);
    }
  }
}
