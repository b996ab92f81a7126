/**
 * The search operations of flat_tree as functions of the comparator and
 * the element sequence: lower_bound, upper_bound, equal_range, find and
 * count, all answering with positions (indices, where |s| is end()).
 */
module Search {
  import opened Ordering

  /** Some stored element is equivalent to `k`. */
  ghost predicate Contains<T>(lt: (T, T) -> bool, s: seq<T>, k: T) {
    exists i :: 0 <= i < |s| && Equiv(lt, s[i], k)
  }

  /** lower_bound(k): the first position whose element is not ordered
      before `k`. */
  function LowerBound<T>(lt: (T, T) -> bool, s: seq<T>, k: T): (r: nat)
    ensures r <= |s|
    ensures forall i :: 0 <= i < r ==> lt(s[i], k)
    ensures r < |s| ==> !lt(s[r], k)
  {
    if |s| == 0 || !lt(s[0], k) then 0 else 1 + LowerBound(lt, s[1..], k)
  }

  /** upper_bound(k): the first position whose element is ordered after `k`. */
  function UpperBound<T>(lt: (T, T) -> bool, s: seq<T>, k: T): (r: nat)
    ensures r <= |s|
    ensures forall i :: 0 <= i < r ==> !lt(k, s[i])
    ensures r < |s| ==> lt(k, s[r])
  {
    if |s| == 0 || lt(k, s[0]) then 0 else 1 + UpperBound(lt, s[1..], k)
  }

  /** equal_range(k) as a unique-key container computes it: from
      lower_bound, a one-slot range when the element found there is
      equivalent to `k`, an empty one otherwise. */
  function EqualRange<T>(lt: (T, T) -> bool, s: seq<T>, k: T): (r: (nat, nat))
    ensures r.0 <= r.1 <= |s|
    ensures r.1 - r.0 <= 1
  {
    var lower := LowerBound(lt, s, k);
    if lower == |s| || lt(k, s[lower]) then (lower, lower) else (lower, lower + 1)
  }

  /** find(k): the position of the element equivalent to `k`, or end(). */
  function Find<T>(lt: (T, T) -> bool, s: seq<T>, k: T): (r: nat)
    ensures r <= |s|
    ensures r < |s| ==> Equiv(lt, s[r], k)
  {
    var range := EqualRange(lt, s, k);
    if range.0 == range.1 then |s| else range.0
  }

  /** count(k): the length of equal_range(k). */
  function Count<T>(lt: (T, T) -> bool, s: seq<T>, k: T): (n: nat)
    ensures n <= 1
  {
    var range := EqualRange(lt, s, k);
    range.1 - range.0
  }

  /** Reference count: the number of stored elements equivalent to `k`. */
  function Occurrences<T>(lt: (T, T) -> bool, s: seq<T>, k: T): nat {
    if |s| == 0 then 0
    else (if Equiv(lt, s[0], k) then 1 else 0) + Occurrences(lt, s[1..], k)
  }

  // Properties of the searches on a sorted buffer.

  /** On a sorted buffer lower_bound partitions it: everything before is
      ordered before `k`, nothing from it on is. */
  lemma LowerBoundPartition<T(!new)>(lt: (T, T) -> bool, s: seq<T>, k: T)
    requires StrictWeakOrder(lt) && Sorted(lt, s)
    ensures forall i :: LowerBound(lt, s, k) <= i < |s| ==> !lt(s[i], k)
  {
    var r := LowerBound(lt, s, k);
    forall i | r <= i < |s|
      ensures !lt(s[i], k)
    {
      if i > r {
        assert lt(s[r], s[i]);
      }
    }
  }

  /** On a sorted buffer upper_bound partitions it: nothing before is
      ordered after `k`, everything from it on is. */
  lemma UpperBoundPartition<T(!new)>(lt: (T, T) -> bool, s: seq<T>, k: T)
    requires StrictWeakOrder(lt) && Sorted(lt, s)
    ensures forall i :: UpperBound(lt, s, k) <= i < |s| ==> lt(k, s[i])
  {
    var r := UpperBound(lt, s, k);
    forall i | r <= i < |s|
      ensures lt(k, s[i])
    {
      if i > r {
        assert lt(s[r], s[i]);
      }
    }
  }

  /** Any position with the lower_bound property is lower_bound. */
  lemma LowerBoundUnique<T>(lt: (T, T) -> bool, s: seq<T>, k: T, p: nat)
    requires p <= |s|
    requires forall i :: 0 <= i < p ==> lt(s[i], k)
    requires p < |s| ==> !lt(s[p], k)
    ensures LowerBound(lt, s, k) == p
  {
  }

  /** Any position with the upper_bound property is upper_bound. */
  lemma UpperBoundUnique<T>(lt: (T, T) -> bool, s: seq<T>, k: T, p: nat)
    requires p <= |s|
    requires forall i :: 0 <= i < p ==> !lt(k, s[i])
    requires p < |s| ==> lt(k, s[p])
    ensures UpperBound(lt, s, k) == p
  {
  }

  /** equal_range(k) is (lower_bound(k), upper_bound(k)); it holds one
      slot exactly when `k` is present, and that slot holds the element
      equivalent to `k`. */
  lemma EqualRangeBounds<T(!new)>(lt: (T, T) -> bool, s: seq<T>, k: T)
    requires StrictWeakOrder(lt) && Sorted(lt, s)
    ensures EqualRange(lt, s, k) == (LowerBound(lt, s, k), UpperBound(lt, s, k))
    ensures EqualRange(lt, s, k).1 == EqualRange(lt, s, k).0 + 1 <==> Contains(lt, s, k)
  {
    var lower := LowerBound(lt, s, k);
    LowerBoundPartition(lt, s, k);
    if lower == |s| || lt(k, s[lower]) {
      UpperBoundUnique(lt, s, k, lower);
      forall i | 0 <= i < |s|
        ensures !Equiv(lt, s[i], k)
      {
        if i > lower {
          assert lt(s[lower], s[i]);
        }
      }
    } else {
      if lower + 1 < |s| {
        assert lt(s[lower], s[lower + 1]);
        EquivSubstitute(lt, s[lower], k, s[lower + 1]);
      }
      UpperBoundUnique(lt, s, k, lower + 1);
      assert Equiv(lt, s[lower], k);
    }
  }

  /** find(k) is the position of the element equivalent to `k` when
      there is one, and end() exactly when there is none. */
  lemma FindPosition<T(!new)>(lt: (T, T) -> bool, s: seq<T>, k: T)
    requires StrictWeakOrder(lt) && Sorted(lt, s)
    ensures Find(lt, s, k) < |s| <==> Contains(lt, s, k)
    ensures Find(lt, s, k) < |s| ==> Find(lt, s, k) == LowerBound(lt, s, k)
  {
    EqualRangeBounds(lt, s, k);
  }

  /** No element of a sorted buffer other than the one at position `p`
      is equivalent to it: the keys are unique. */
  lemma UniqueKeys<T(!new)>(lt: (T, T) -> bool, s: seq<T>, p: nat, q: nat)
    requires StrictWeakOrder(lt) && Sorted(lt, s)
    requires p < |s| && q < |s| && Equiv(lt, s[p], s[q])
    ensures p == q
  {
  }

  /** count(k) is the number of stored elements equivalent to `k`; on a
      sorted buffer that is 0 or 1. */
  lemma {:induction false} CountIsOccurrences<T(!new)>(lt: (T, T) -> bool, s: seq<T>, k: T)
    requires StrictWeakOrder(lt) && Sorted(lt, s)
    ensures Count(lt, s, k) == Occurrences(lt, s, k)
  {
    if |s| > 0 {
      SortedSlice(lt, s, 1, |s|);
      if lt(s[0], k) {
        CountIsOccurrences(lt, s[1..], k);
        CountSkipsSmaller(lt, s, k);
      } else {
        forall i | 0 <= i < |s[1..]|
          ensures lt(k, s[1..][i])
        {
          assert lt(s[0], s[1..][i]);
          if !lt(k, s[0]) {
            EquivSubstitute(lt, s[0], k, s[1..][i]);
          }
        }
        NoneAbove(lt, s[1..], k);
      }
    }
  }

  /** When the first element is ordered before `k`, count(k) is the count
      in the rest of the buffer. */
  lemma CountSkipsSmaller<T>(lt: (T, T) -> bool, s: seq<T>, k: T)
    requires |s| > 0 && lt(s[0], k)
    ensures Count(lt, s, k) == Count(lt, s[1..], k)
  {
    var l := LowerBound(lt, s[1..], k);
    assert LowerBound(lt, s, k) == l + 1;
    assert l < |s[1..]| ==> s[1..][l] == s[l + 1];
  }

  /** No element of a buffer whose elements are all ordered after `k` is
      equivalent to `k`. */
  lemma {:induction false} NoneAbove<T>(lt: (T, T) -> bool, s: seq<T>, k: T)
    requires forall i :: 0 <= i < |s| ==> lt(k, s[i])
    ensures Occurrences(lt, s, k) == 0
  {
    if |s| > 0 {
      assert lt(k, s[0]);
      NoneAbove(lt, s[1..], k);
    }
  }
}
