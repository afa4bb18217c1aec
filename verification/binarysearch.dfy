/**
 A lower-bound search over a monotone predicate, following the algorithm of
 Go's `sort.Search`: halve [lo, hi) until it is empty, keeping every index
 below `lo` false and every index from `hi` on true.
 */
module BinarySearch {

  /** `f` is monotone on [0, n): once it holds it keeps holding. */
  ghost predicate Monotone(n: nat, f: nat -> bool) {
    forall i, j :: 0 <= i <= j < n && f(i) ==> f(j)
  }

  /** The smallest `i` in [0, n] such that `f` holds from `i` on; `n` when `f` never holds. */
  method Search(n: nat, f: nat -> bool) returns (i: nat)
    requires Monotone(n, f)
    ensures i <= n
    ensures forall j :: 0 <= j < i ==> !f(j)
    ensures forall j :: i <= j < n ==> f(j)
  {
    var lo, hi := 0, n;
    while lo < hi
      invariant 0 <= lo <= hi <= n
      invariant forall j :: 0 <= j < lo ==> !f(j)
      invariant forall j :: hi <= j < n ==> f(j)
      decreases hi - lo
    {
      var h := (lo + hi) / 2;
      if !f(h) {
        lo := h + 1;
      } else {
        hi := h;
      }
    }
    i := lo;
  }
}
