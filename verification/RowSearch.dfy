/** Binary search in a strictly ascending row. */
module RowSearch {
  import opened Csr

  /** The first index of s[lo..hi] whose entry is at least x: std::lower_bound on an ascending row. */
  method LowerBound(s: seq<nat>, lo: nat, hi: nat, x: int) returns (i: nat)
    requires lo <= hi <= |s| && Strict(s, lo, hi)
    ensures lo <= i <= hi
    ensures forall k :: lo <= k < i ==> s[k] < x
    ensures forall k :: i <= k < hi ==> s[k] >= x
  {
    i := lo;
    var end := hi;
    while i < end
      invariant lo <= i <= end <= hi
      invariant forall k :: lo <= k < i ==> s[k] < x
      invariant forall k :: end <= k < hi ==> s[k] >= x
    {
      var mid := (i + end) / 2;
      if s[mid] < x {
        i := mid + 1;
      } else {
        end := mid;
      }
    }
  }

  method BinarySearch(s: seq<nat>, lo: nat, hi: nat, x: nat) returns (found: bool)
    requires lo <= hi <= |s| && Strict(s, lo, hi)
    ensures found <==> Occurrences(s, lo, hi, x) > 0
  {
    var i := LowerBound(s, lo, hi, x);
    OccursIff(s, lo, hi, x);
    return i < hi && s[i] == x;
  }
}
