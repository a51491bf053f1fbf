/**
 * Go's sort.Search(n, f), the binary search that both bisect and insertSorted
 * are built on. The predicate f is given by its values f[0], ..., f[n-1].
 */
module SortSearch {

  /** f is false on a prefix and true on the rest: what sort.Search assumes of its predicate. */
  ghost predicate Monotone(f: seq<bool>) {
    forall i, j | 0 <= i <= j < |f| :: f[i] ==> f[j]
  }

  /** f is false at every index before r and true at every index from r on. */
  ghost predicate FirstTrueAt(f: seq<bool>, r: int) {
    && 0 <= r <= |f|
    && (forall k | 0 <= k < r :: !f[k])
    && (forall k | r <= k < |f| :: f[k])
  }

  /**
   * The loop of sort.Search on the window [lo, hi): halve at h = (lo + hi) / 2,
   * continue right of h when f(h) is false, left of it (h included) otherwise.
   */
  function SearchIn(f: seq<bool>, lo: nat, hi: nat): (r: nat)
    requires lo <= hi <= |f|
    ensures lo <= r <= hi
    decreases hi - lo
  {
    if lo < hi then
      var h := (lo + hi) / 2;
      if !f[h] then SearchIn(f, h + 1, hi) else SearchIn(f, lo, h)
    else
      lo
  }

  /** sort.Search(|f|, f). */
  function Search(f: seq<bool>): (r: nat)
    ensures r <= |f|
  {
    SearchIn(f, 0, |f|)
  }

  /** On a window already bracketed (false below lo, true from hi on), the loop finds the boundary. */
  lemma {:induction false} SearchInFindsFirst(f: seq<bool>, lo: nat, hi: nat)
    requires lo <= hi <= |f|
    requires Monotone(f)
    requires forall k | 0 <= k < lo :: !f[k]
    requires forall k | hi <= k < |f| :: f[k]
    ensures FirstTrueAt(f, SearchIn(f, lo, hi))
    decreases hi - lo
  {
    if lo < hi {
      var h := (lo + hi) / 2;
      if !f[h] {
        forall k | 0 <= k < h + 1 ensures !f[k] {
          if lo <= k {
            assert !f[h] ==> !f[k];
          }
        }
        SearchInFindsFirst(f, h + 1, hi);
      } else {
        SearchInFindsFirst(f, lo, h);
      }
    }
  }

  /** The documented contract of sort.Search: on a monotone predicate it returns the first index where f holds, or |f|. */
  lemma SearchFindsFirst(f: seq<bool>)
    requires Monotone(f)
    ensures FirstTrueAt(f, Search(f))
  {
    SearchInFindsFirst(f, 0, |f|);
  }

  /** At most one index splits f into a false prefix and a true suffix. */
  lemma FirstTrueUnique(f: seq<bool>, a: int, b: int)
    requires FirstTrueAt(f, a) && FirstTrueAt(f, b)
    ensures a == b
  {
    assert a < |f| ==> f[a];
    assert b < |f| ==> f[b];
  }

  /**
   * Whatever the predicate, the loop stops at a boundary: f is false just
   * before the result (unless it is lo) and true at it (unless it is hi).
   */
  lemma {:induction false} SearchInBrackets(f: seq<bool>, lo: nat, hi: nat)
    requires lo <= hi <= |f|
    requires lo == 0 || !f[lo - 1]
    requires hi == |f| || f[hi]
    ensures var r := SearchIn(f, lo, hi); (r == 0 || !f[r - 1]) && (r == |f| || f[r])
    decreases hi - lo
  {
    if lo < hi {
      var h := (lo + hi) / 2;
      if !f[h] {
        SearchInBrackets(f, h + 1, hi);
      } else {
        SearchInBrackets(f, lo, h);
      }
    }
  }
}
