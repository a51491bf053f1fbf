/** Go's slices.Insert and slices.Delete on value sequences. */
module Slices {

  /** slices.Insert(s, i, x): x placed at index i, the elements from i on shifted one to the right. */
  function Insert<T>(s: seq<T>, i: nat, x: T): (r: seq<T>)
    requires i <= |s|
    ensures |r| == |s| + 1 && r[i] == x
    ensures forall k | 0 <= k < i :: r[k] == s[k]
    ensures forall k | i < k < |r| :: r[k] == s[k - 1]
  {
    s[..i] + [x] + s[i..]
  }

  /** slices.Delete(s, i, j): the elements s[i..j) removed, the rest closed up in order. */
  function Delete<T>(s: seq<T>, i: nat, j: nat): (r: seq<T>)
    requires i <= j <= |s|
    ensures |r| == |s| - (j - i)
    ensures forall k | 0 <= k < i :: r[k] == s[k]
    ensures forall k | i <= k < |r| :: r[k] == s[k + (j - i)]
  {
    s[..i] + s[j..]
  }

  /** Deleting the one element that was just inserted gives the original sequence back. */
  lemma DeleteInsert<T>(s: seq<T>, i: nat, x: T)
    requires i <= |s|
    ensures Delete(Insert(s, i, x), i, i + 1) == s
  {
    var r := Delete(Insert(s, i, x), i, i + 1);
    assert forall k | 0 <= k < |s| :: r[k] == s[k];
  }

  /** Insert adds exactly one occurrence of x and keeps every other element. */
  lemma InsertMultiset<T>(s: seq<T>, i: nat, x: T)
    requires i <= |s|
    ensures multiset(Insert(s, i, x)) == multiset(s) + multiset{x}
  {
    assert s == s[..i] + s[i..];
    assert Insert(s, i, x) == s[..i] + [x] + s[i..];
  }

  /** Deleting the empty range [i, i) changes nothing. */
  lemma DeleteEmptyRange<T>(s: seq<T>, i: nat)
    requires i <= |s|
    ensures Delete(s, i, i) == s
  {
  }
}
