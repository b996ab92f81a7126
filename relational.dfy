/**
 * The relational operators between two whole containers. They compare
 * the stored sequences lexicographically by the elements' own order
 * (`natural`), which need not be the container's comparator.
 */
module Relational {
  import opened Ordering

  /** std::lexicographical_compare: the first position where the
      sequences' elements are not equivalent decides; a proper prefix is
      smaller. */
  function LexLess<T>(natural: (T, T) -> bool, a: seq<T>, b: seq<T>): (r: bool)
    ensures r ==> |b| > 0
    ensures |a| < |b| && a == b[..|a|] ==> r
  {
    if |b| == 0 then false
    else if |a| == 0 then true
    else if natural(a[0], b[0]) then true
    else if natural(b[0], a[0]) then false
    else LexLess(natural, a[1..], b[1..])
  }

  /** operator!= */
  function NotEqual<T(==)>(a: seq<T>, b: seq<T>): (r: bool)
    ensures r <==> |a| != |b| || exists i :: 0 <= i < |a| && a[i] != b[i]
  {
    !(a == b)
  }

  /** operator>: rhs < lhs */
  function Greater<T>(natural: (T, T) -> bool, a: seq<T>, b: seq<T>): (r: bool)
    ensures r ==> |a| > 0
    ensures |b| < |a| && b == a[..|b|] ==> r
  {
    LexLess(natural, b, a)
  }

  /** operator<=: !(rhs < lhs) */
  function LessEq<T>(natural: (T, T) -> bool, a: seq<T>, b: seq<T>): (r: bool)
    ensures |a| == 0 ==> r
    ensures |a| > 0 && |b| == 0 ==> !r
  {
    !LexLess(natural, b, a)
  }

  /** operator>=: !(lhs < rhs) */
  function GreaterEq<T>(natural: (T, T) -> bool, a: seq<T>, b: seq<T>): (r: bool)
    ensures |b| == 0 ==> r
    ensures |b| > 0 && |a| == 0 ==> !r
  {
    !LexLess(natural, a, b)
  }

  /** No container is less than itself. */
  lemma {:induction false} LexLessIrreflexive<T(!new)>(natural: (T, T) -> bool, a: seq<T>)
    requires StrictWeakOrder(natural)
    ensures !LexLess(natural, a, a)
  {
    if |a| > 0 {
      LexLessIrreflexive(natural, a[1..]);
    }
  }

  /** The lexicographic order is transitive. */
  lemma {:induction false} LexLessTransitive<T(!new)>(natural: (T, T) -> bool, a: seq<T>, b: seq<T>, c: seq<T>)
    requires StrictWeakOrder(natural)
    requires LexLess(natural, a, b) && LexLess(natural, b, c)
    ensures LexLess(natural, a, c)
  {
    if |a| > 0 && |b| > 0 && |c| > 0 {
      if Equiv(natural, a[0], b[0]) && Equiv(natural, b[0], c[0]) {
        EquivTransitive(natural, a[0], b[0], c[0]);
        LexLessTransitive(natural, a[1..], b[1..], c[1..]);
      } else if Equiv(natural, a[0], b[0]) {
        EquivSubstitute(natural, a[0], b[0], c[0]);
      } else if Equiv(natural, b[0], c[0]) {
        EquivSubstitute(natural, b[0], c[0], a[0]);
      }
    }
  }

  /** Under a total element order exactly one of a < b, a == b, b < a
      holds: the six operators agree with each other. */
  lemma {:induction false} LexTrichotomy<T(!new)>(natural: (T, T) -> bool, a: seq<T>, b: seq<T>)
    requires StrictTotalOrder(natural)
    ensures LexLess(natural, a, b) || a == b || LexLess(natural, b, a)
    ensures !(LexLess(natural, a, b) && LexLess(natural, b, a))
    ensures a == b ==> !LexLess(natural, a, b)
  {
    if a == b {
      LexLessIrreflexive(natural, a);
    } else if |a| > 0 && |b| > 0 {
      LexTrichotomy(natural, a[1..], b[1..]);
      if a[0] == b[0] {
        assert a == [a[0]] + a[1..] && b == [b[0]] + b[1..];
      }
    }
  }

  /** Under a total element order <= is "less or equal" and >= is
      "greater or equal". */
  lemma LessEqMeaning<T(!new)>(natural: (T, T) -> bool, a: seq<T>, b: seq<T>)
    requires StrictTotalOrder(natural)
    ensures LessEq(natural, a, b) <==> LexLess(natural, a, b) || a == b
    ensures GreaterEq(natural, a, b) <==> Greater(natural, a, b) || a == b
  {
    LexTrichotomy(natural, a, b);
  }
}
