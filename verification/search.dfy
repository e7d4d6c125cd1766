/** Index searches over sequences, each with a contract that pins the index
    down completely (it is the first or the last occurrence in a range). The
    regular expressions of the model are built from these. */
module Search {
  import opened Wrappers

  /** The smallest index `k` in `[lo, hi)` with `s[k] == x`. */
  function FirstIndex<T(==)>(s: seq<T>, x: T, lo: nat, hi: nat): (r: Option<nat>)
    requires lo <= hi <= |s|
    ensures r.Some? ==> lo <= r.value < hi && s[r.value] == x
    ensures r.Some? ==> forall k :: lo <= k < r.value ==> s[k] != x
    ensures r.None? ==> forall k :: lo <= k < hi ==> s[k] != x
    decreases hi - lo
  {
    if lo == hi then None
    else if s[lo] == x then Some(lo)
    else FirstIndex(s, x, lo + 1, hi)
  }

  /** The largest index `k` in `[lo, hi)` with `s[k] == x`. */
  function LastIndex<T(==)>(s: seq<T>, x: T, lo: nat, hi: nat): (r: Option<nat>)
    requires lo <= hi <= |s|
    ensures r.Some? ==> lo <= r.value < hi && s[r.value] == x
    ensures r.Some? ==> forall k :: r.value < k < hi ==> s[k] != x
    ensures r.None? ==> forall k :: lo <= k < hi ==> s[k] != x
    decreases hi - lo
  {
    if lo == hi then None
    else if s[hi - 1] == x then Some(hi - 1)
    else LastIndex(s, x, lo, hi - 1)
  }

  /** Whether the two-element pattern `x y` starts at index `k` of `s`. */
  predicate PairAt<T(==)>(s: seq<T>, k: int, x: T, y: T) {
    0 <= k && k + 1 < |s| && s[k] == x && s[k + 1] == y
  }

  /** The largest `k` with `lo <= k` and `k + 1 < hi` where the pair `x y`
      starts, that is the last occurrence of `x y` lying wholly inside `[lo, hi)`. */
  function LastPair<T(==)>(s: seq<T>, x: T, y: T, lo: nat, hi: nat): (r: Option<nat>)
    requires hi <= |s|
    ensures r.Some? ==> lo <= r.value && r.value + 1 < hi && PairAt(s, r.value, x, y)
    ensures r.Some? ==> forall k :: r.value < k && k + 1 < hi ==> !PairAt(s, k, x, y)
    ensures r.None? ==> forall k :: lo <= k && k + 1 < hi ==> !PairAt(s, k, x, y)
    decreases hi
  {
    if hi < lo + 2 then None
    else if PairAt(s, hi - 2, x, y) then Some(hi - 2)
    else LastPair(s, x, y, lo, hi - 1)
  }

  /** The smallest `k >= lo` at which the pair `x y` starts. */
  function FirstPair<T(==)>(s: seq<T>, x: T, y: T, lo: nat): (r: Option<nat>)
    requires lo <= |s|
    ensures r.Some? ==> lo <= r.value && PairAt(s, r.value, x, y)
    ensures r.Some? ==> forall k :: lo <= k < r.value ==> !PairAt(s, k, x, y)
    ensures r.None? ==> forall k :: lo <= k ==> !PairAt(s, k, x, y)
    decreases |s| - lo
  {
    if lo + 1 >= |s| then None
    else if PairAt(s, lo, x, y) then Some(lo)
    else FirstPair(s, x, y, lo + 1)
  }

  /** The length of the longest run of elements satisfying `p` that starts at `i`. */
  function RunLength<T>(s: seq<T>, i: nat, p: T -> bool): (n: nat)
    requires i <= |s|
    ensures i + n <= |s|
    ensures forall j :: i <= j < i + n ==> p(s[j])
    ensures i + n < |s| ==> !p(s[i + n])
    decreases |s| - i
  {
    if i == |s| || !p(s[i]) then 0
    else 1 + RunLength(s, i + 1, p)
  }
}
