/** The `Array.prototype.indexOf(searchElement, fromIndex)` polyfill: a
    negative start counts from the end, and the array is scanned upward from
    the start for the first element equal to the one searched for. */
module ArrayIndexOf {

  /** Where the scan starts: `fromIndex` itself when non-negative, otherwise
      `len + fromIndex` clamped at 0. */
  function StartIndex(len: nat, fromIndex: int): (k: nat)
    ensures fromIndex >= 0 ==> k == fromIndex
    ensures fromIndex < 0 ==> k <= len && k == (if len + fromIndex > 0 then len + fromIndex else 0)
    ensures fromIndex < 0 && k > 0 ==> len - k == -fromIndex
  {
    if fromIndex >= 0 then fromIndex
    else if len + fromIndex > 0 then len + fromIndex else 0
  }

  /** The first index at or after the start that holds `x`, or -1. */
  method IndexOf<T(==)>(a: seq<T>, x: T, fromIndex: int) returns (r: int)
    ensures var start := StartIndex(|a|, fromIndex);
      && (r == -1 || (start <= r < |a| && a[r] == x))
      && (r != -1 ==> forall j :: start <= j < r ==> a[j] != x)
      && (r == -1 <==> forall j :: start <= j < |a| ==> a[j] != x)
  {
    var len := |a|;
    if len == 0 {
      return -1;
    }
    var n := fromIndex;
    if n >= len {
      return -1;
    }
    var k := if n >= 0 then n else if len + n > 0 then len + n else 0;
    while k < len
      invariant StartIndex(len, fromIndex) <= k <= len
      invariant forall j :: StartIndex(len, fromIndex) <= j < k ==> a[j] != x
    {
      if a[k] == x {
        return k;
      }
      k := k + 1;
    }
    return -1;
  }
}
