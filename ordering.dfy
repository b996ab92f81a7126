/**
 * Comparators for flat_tree: the strict weak order a comparator must be,
 * the ordering invariant of the container's buffer, and the comparators the
 * unit tests instantiate the container with (std::less<int>,
 * std::greater<int>, and a pair comparator that looks at the first
 * component only).
 */
module Ordering {

  /** `lt` is a strict weak order: irreflexive, transitive, and
      negatively transitive (so that "neither a<b nor b<a" is an
      equivalence). */
  ghost predicate StrictWeakOrder<T(!new)>(lt: (T, T) -> bool) {
    && (forall x :: !lt(x, x))
    && (forall x, y, z :: lt(x, y) && lt(y, z) ==> lt(x, z))
    && (forall x, y, z :: lt(x, z) ==> lt(x, y) || lt(y, z))
  }

  /** A strict weak order whose equivalence is equality. */
  ghost predicate StrictTotalOrder<T(!new)>(lt: (T, T) -> bool) {
    && StrictWeakOrder(lt)
    && (forall x, y :: x != y ==> lt(x, y) || lt(y, x))
  }

  /** Keys equivalent under the comparator: neither is ordered before the other. */
  predicate Equiv<T>(lt: (T, T) -> bool, a: T, b: T) {
    !lt(a, b) && !lt(b, a)
  }

  /** The container invariant: every element is ordered strictly before
      every later one. This is both sortedness and uniqueness of keys. */
  ghost predicate Sorted<T>(lt: (T, T) -> bool, s: seq<T>) {
    forall i, j :: 0 <= i < j < |s| ==> lt(s[i], s[j])
  }

  /** What std::is_sorted checks with a comparator: no element is ordered
      before its predecessor. */
  ghost predicate IsSortedBy<T>(comp: (T, T) -> bool, s: seq<T>) {
    forall i :: 0 < i < |s| ==> !comp(s[i], s[i - 1])
  }

  lemma EquivTransitive<T(!new)>(lt: (T, T) -> bool, a: T, b: T, c: T)
    requires StrictWeakOrder(lt)
    requires Equiv(lt, a, b) && Equiv(lt, b, c)
    ensures Equiv(lt, a, c)
  {
  }

  /** Ordering a key before or after an element transfers to every key
      equivalent to it. */
  lemma EquivSubstitute<T(!new)>(lt: (T, T) -> bool, a: T, b: T, c: T)
    requires StrictWeakOrder(lt)
    requires Equiv(lt, a, b)
    ensures lt(a, c) <==> lt(b, c)
    ensures lt(c, a) <==> lt(c, b)
  {
    if lt(a, c) { assert lt(a, b) || lt(b, c); }
    if lt(b, c) { assert lt(b, a) || lt(a, c); }
    if lt(c, a) { assert lt(c, b) || lt(b, a); }
    if lt(c, b) { assert lt(c, a) || lt(a, b); }
  }

  /** A sorted buffer satisfies std::is_sorted under its own comparator. */
  lemma SortedIsSortedBy<T(!new)>(lt: (T, T) -> bool, s: seq<T>)
    requires StrictWeakOrder(lt)
    requires Sorted(lt, s)
    ensures IsSortedBy(lt, s)
  {
    forall i | 0 < i < |s|
      ensures !lt(s[i], s[i - 1])
    {
      assert lt(s[i - 1], s[i]);
    }
  }

  /** Every contiguous slice of a sorted buffer is sorted. */
  lemma SortedSlice<T>(lt: (T, T) -> bool, s: seq<T>, lo: nat, hi: nat)
    requires Sorted(lt, s) && lo <= hi <= |s|
    ensures Sorted(lt, s[lo..hi])
  {
    forall i, j | 0 <= i < j < hi - lo
      ensures lt(s[lo..hi][i], s[lo..hi][j])
    {
      assert s[lo..hi][i] == s[lo + i] && s[lo..hi][j] == s[lo + j];
    }
  }

  /** Removing the slice [lo, hi) from a sorted buffer keeps it sorted. */
  lemma SortedCut<T(!new)>(lt: (T, T) -> bool, s: seq<T>, lo: nat, hi: nat)
    requires Sorted(lt, s) && lo <= hi <= |s|
    ensures Sorted(lt, s[..lo] + s[hi..])
  {
    var r := s[..lo] + s[hi..];
    forall i, j | 0 <= i < j < |r|
      ensures lt(r[i], r[j])
    {
      var i' := if i < lo then i else i + (hi - lo);
      var j' := if j < lo then j else j + (hi - lo);
      assert r[i] == s[i'] && r[j] == s[j'];
    }
  }

  /** Two sorted buffers holding the same elements are equal, when
      equivalence is equality. */
  lemma {:induction false} SortedByElements<T(!new)>(lt: (T, T) -> bool, a: seq<T>, b: seq<T>)
    requires StrictTotalOrder(lt) && Sorted(lt, a) && Sorted(lt, b)
    requires forall y :: y in a <==> y in b
    ensures a == b
  {
    assert a != [] ==> a[0] in b;
    assert b != [] ==> b[0] in a;
    if a != [] && b != [] {
      var i :| 0 <= i < |a| && a[i] == b[0];
      var j :| 0 <= j < |b| && b[j] == a[0];
      // b[0] is stored in `a` and a[0] in `b`, and each heads its buffer
      assert !lt(b[0], a[0]) && !lt(a[0], b[0]);
      SortedSlice(lt, a, 1, |a|);
      SortedSlice(lt, b, 1, |b|);
      forall y
        ensures y in a[1..] <==> y in b[1..]
      {
        if y in a[1..] {
          var k :| 1 <= k < |a| && a[k] == y;
          assert lt(a[0], a[k]);
          assert y in b && y != b[0];
        }
        if y in b[1..] {
          var k :| 1 <= k < |b| && b[k] == y;
          assert lt(b[0], b[k]);
          assert y in a && y != a[0];
        }
      }
      SortedByElements(lt, a[1..], b[1..]);
      assert a == [a[0]] + a[1..] && b == [b[0]] + b[1..];
    }
  }

  // The comparators of the unit tests.

  /** std::less<int>, the comparator of IntTree. */
  function IntLess(a: int, b: int): bool { a < b }

  /** std::greater<int>, the comparator of ReversedTree. */
  function IntGreater(a: int, b: int): bool { a > b }

  /** LessByFirst of the stability test: pairs ordered by their first
      component only, so pairs that agree on it are equivalent. */
  function LessByFirst(a: (int, int), b: (int, int)): bool { a.0 < b.0 }

  lemma IntLessIsTotal()
    ensures StrictTotalOrder(IntLess)
  {
  }

  lemma IntGreaterIsTotal()
    ensures StrictTotalOrder(IntGreater)
  {
  }

  /** LessByFirst is a strict weak order, and not a total one: it ignores
      the second component. */
  lemma LessByFirstIsWeak()
    ensures StrictWeakOrder(LessByFirst)
    ensures !StrictTotalOrder(LessByFirst)
  {
    assert (0, 0) != (0, 1) && !LessByFirst((0, 0), (0, 1)) && !LessByFirst((0, 1), (0, 0));
  }
}
