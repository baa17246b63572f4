/**
 * The operations of C#'s List<T> that the path finder relies on, over
 * sequences (and an array for the in-place reversal).
 */
module Lists {

  /** No element occurs twice. */
  ghost predicate Distinct<T>(s: seq<T>)
  {
    forall i, j | 0 <= i < j < |s| :: s[i] != s[j]
  }

  /** The position of the first occurrence of `x` in `s`. */
  function FirstIndex<T(==)>(s: seq<T>, x: T): (k: nat)
    requires x in s
    ensures k < |s| && s[k] == x && x !in s[..k]
  {
    if s[0] == x then 0
    else
      var k := FirstIndex(s[1..], x);
      assert s[..k + 1] == [s[0]] + s[1..][..k];
      k + 1
  }

  /** List.Remove: drop the first occurrence of `x`, if any. */
  function RemoveFirst<T(==)>(s: seq<T>, x: T): (r: seq<T>)
    ensures x in s ==> |r| == |s| - 1
    ensures x !in s ==> r == s
  {
    if x in s then
      var k := FirstIndex(s, x);
      s[..k] + s[k + 1..]
    else s
  }

  /** Removing an element of a list without duplicates leaves the other elements, each once. */
  lemma RemoveDistinct<T>(s: seq<T>, x: T)
    requires Distinct(s) && x in s
    ensures Distinct(RemoveFirst(s, x))
    ensures forall y :: y in RemoveFirst(s, x) <==> y in s && y != x
  {
    var k := FirstIndex(s, x);
    var r := s[..k] + s[k + 1..];
    assert RemoveFirst(s, x) == r;
    assert forall m | 0 <= m < k :: r[m] == s[m];
    assert forall m | k <= m < |r| :: r[m] == s[m + 1];
    forall y
      ensures y in r <==> y in s && y != x
    {
      if y in r {
        var m :| 0 <= m < |r| && r[m] == y;
        if m >= k {
          assert s[m + 1] == y;
        }
      }
      if y in s && y != x {
        var m :| 0 <= m < |s| && s[m] == y;
        if m > k {
          assert r[m - 1] == y;
        }
      }
    }
    forall i, j | 0 <= i < j < |r|
      ensures r[i] != r[j]
    {
      if j < k {
        assert s[i] != s[j];
      } else if i < k {
        assert s[i] != s[j + 1];
      } else {
        assert s[i + 1] != s[j + 1];
      }
    }
  }

  /** Reverses an array in place, by swapping from both ends towards the middle (List.Reverse). */
  method ReverseInPlace<T>(a: array<T>)
    modifies a
    ensures forall k | 0 <= k < a.Length :: a[k] == old(a[a.Length - 1 - k])
  {
    var lo, hi := 0, a.Length - 1;
    while lo < hi
      invariant 0 <= lo && hi == a.Length - 1 - lo && lo <= a.Length - lo
      invariant forall k | 0 <= k < lo || hi < k < a.Length :: a[k] == old(a[a.Length - 1 - k])
      invariant forall k | lo <= k <= hi :: a[k] == old(a[k])
    {
      a[lo], a[hi] := a[hi], a[lo];
      lo, hi := lo + 1, hi - 1;
    }
  }
}
