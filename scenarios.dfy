/**
 * The unit tests' concrete scenarios, restated against the model: the
 * expected contents, positions and counts follow from the definitions.
 */
module Scenarios {
  import opened Ordering
  import opened Search
  import opened Mutation
  import opened Relational
  import opened FlatTrees

  // Helpers: one step of a concrete insertion or construction, stated
  // with the comparisons that decide it, so no ordering axioms are needed.

  /** Inserting `x` where it partitions `s` adds it there. */
  lemma InsertAt<T>(lt: (T, T) -> bool, s: seq<T>, x: T, p: nat)
    requires p <= |s|
    requires forall i :: 0 <= i < p ==> lt(s[i], x)
    requires p < |s| ==> lt(x, s[p]) && !lt(s[p], x)
    ensures Insert(lt, s, x) == InsertResult(s[..p] + [x] + s[p..], p, true)
  {
    LowerBoundUnique(lt, s, x, p);
  }

  /** Inserting `x` next to an equivalent element at `p` keeps `s`. */
  lemma InsertKept<T>(lt: (T, T) -> bool, s: seq<T>, x: T, p: nat)
    requires p < |s| && Equiv(lt, s[p], x)
    requires forall i :: 0 <= i < p ==> lt(s[i], x)
    ensures Insert(lt, s, x) == InsertResult(s, p, false)
  {
    LowerBoundUnique(lt, s, x, p);
  }

  /** One construction step: `x` is ordered after every element of the
      buffer `prev` built from `xs`, so it is appended. */
  lemma BuildLast<T>(lt: (T, T) -> bool, xs: seq<T>, x: T, prev: seq<T>)
    requires FromSeq(lt, xs) == prev
    requires forall i :: 0 <= i < |prev| ==> lt(prev[i], x)
    ensures FromSeq(lt, xs + [x]) == prev + [x]
  {
    FromSeqAppend(lt, xs, x);
    InsertAt(lt, prev, x, |prev|);
    assert prev[..|prev|] == prev;
  }

  /** One construction step: `x` is equivalent to the element at `p` of
      the buffer `prev` built from `xs`, so it is dropped. */
  lemma BuildDuplicate<T>(lt: (T, T) -> bool, xs: seq<T>, x: T, prev: seq<T>, p: nat)
    requires FromSeq(lt, xs) == prev
    requires p < |prev| && Equiv(lt, prev[p], x)
    requires forall i :: 0 <= i < p ==> lt(prev[i], x)
    ensures FromSeq(lt, xs + [x]) == prev
  {
    FromSeqAppend(lt, xs, x);
    InsertKept(lt, prev, x, p);
  }

  /** Erasing `k`, equivalent to the element at `p` that partitions `s`,
      removes that element. */
  lemma EraseAt<T>(lt: (T, T) -> bool, s: seq<T>, k: T, p: nat)
    requires p < |s| && Equiv(lt, s[p], k)
    requires forall i :: 0 <= i < p ==> lt(s[i], k)
    ensures EraseKey(lt, s, k) == (s[..p] + s[p + 1..], 1)
  {
    LowerBoundUnique(lt, s, k, p);
  }

  /** One EraseIf step over `xs[k]`, where `prev` is what is kept of
      `xs[..k]`. */
  lemma KeepStep<T>(xs: seq<T>, k: nat, prev: seq<T>, pred: T -> bool)
    requires k < |xs| && RemoveIf(xs[..k], pred) == prev
    ensures RemoveIf(xs[..k + 1], pred) == prev + (if pred(xs[k]) then [] else [xs[k]])
  {
    assert xs[..k + 1][..k] == xs[..k];
  }

  // Construction

  /** RangeConstructor: {1,1,1,2,2,2,3,3,3} gives {1,2,3}. */
  lemma RangeConstructorExample(input: seq<int>)
    requires input == [1, 1, 1, 2, 2, 2, 3, 3, 3]
    ensures FromSeq(IntLess, input) == [1, 2, 3]
  {
    IntLessIsTotal();
    FromSeqCanonical(IntLess, input, [1, 2, 3]);
  }

  /** InitializerListConstructor: {1,2,3,4,5,6,10,8} gives
      {1,2,3,4,5,6,8,10}; the assignment test then finds no 0. */
  lemma InitializerListExample(input: seq<int>)
    requires input == [1, 2, 3, 4, 5, 6, 10, 8]
    ensures FromSeq(IntLess, input) == [1, 2, 3, 4, 5, 6, 8, 10]
    ensures Count(IntLess, FromSeq(IntLess, input), 0) == 0
  {
    IntLessIsTotal();
    FromSeqCanonical(IntLess, input, [1, 2, 3, 4, 5, 6, 8, 10]);
    LowerBoundUnique(IntLess, [1, 2, 3, 4, 5, 6, 8, 10], 0, 0);
  }

  /** The first three pairs of the stability input build [(0,0),(1,0)]:
      (0,1) is dropped. */
  lemma StabilityPrefix(xs: seq<(int, int)>)
    requires xs == [(0, 0), (1, 0), (0, 1)]
    ensures FromSeq(LessByFirst, xs) == [(0, 0), (1, 0)]
  {
    var x0: seq<(int, int)> := [];
    var x1 := x0 + [(0, 0)];
    BuildLast(LessByFirst, x0, (0, 0), []);
    BuildLast(LessByFirst, x1, (1, 0), [(0, 0)]);
    assert xs == x1 + [(1, 0)] + [(0, 1)];
    BuildDuplicate(LessByFirst, x1 + [(1, 0)], (0, 1), [(0, 0), (1, 0)], 0);
  }

  /** Stability, construction: of the pairs with equal first component
      one is kept, so {(0,0),(1,0),(0,1),(2,0),(0,2),(1,1)} gives three
      pairs (as the model builds it, the first of each). */
  lemma StabilityConstruction(input: seq<(int, int)>)
    requires input == [(0, 0), (1, 0), (0, 1), (2, 0), (0, 2), (1, 1)]
    ensures FromSeq(LessByFirst, input) == [(0, 0), (1, 0), (2, 0)]
  {
    var x3 := input[..3];
    StabilityPrefix(x3);
    BuildLast(LessByFirst, x3, (2, 0), [(0, 0), (1, 0)]);
    var x4 := x3 + [(2, 0)];
    BuildDuplicate(LessByFirst, x4, (0, 2), [(0, 0), (1, 0), (2, 0)], 0);
    assert input == x4 + [(0, 2)] + [(1, 1)];
    BuildDuplicate(LessByFirst, x4 + [(0, 2)], (1, 1), [(0, 0), (1, 0), (2, 0)], 1);
  }

  /** Stability, inserts: inserting a pair whose first component is
      already stored replaces nothing, so no stored pair ever has second
      component 2. */
  lemma StabilityInserts(built: seq<(int, int)>)
    requires built == [(0, 0), (1, 0), (2, 0)]
    ensures var a := Insert(LessByFirst, built, (0, 2)).elems;
      var b := Insert(LessByFirst, a, (1, 2)).elems;
      var c := Insert(LessByFirst, b, (2, 2)).elems;
      var d := Insert(LessByFirst, c, (3, 0)).elems;
      var e := Insert(LessByFirst, d, (3, 2)).elems;
      && c == built
      && e == [(0, 0), (1, 0), (2, 0), (3, 0)]
      && (forall q :: q in c ==> q.1 != 2)
      && (forall q :: q in e ==> q.1 != 2)
  {
    InsertKept(LessByFirst, built, (0, 2), 0);
    InsertKept(LessByFirst, built, (1, 2), 1);
    InsertKept(LessByFirst, built, (2, 2), 2);
    InsertAt(LessByFirst, built, (3, 0), 3);
    var d := Insert(LessByFirst, built, (3, 0)).elems;
    assert d == [(0, 0), (1, 0), (2, 0), (3, 0)];
    InsertKept(LessByFirst, d, (3, 2), 3);
  }

  // Searches

  /** On {5,7,9,...,19}, lower_bound(k) for every k from 4 to 20. */
  lemma LowerBoundExamples(s: seq<int>)
    requires s == [5, 7, 9, 11, 13, 15, 17, 19]
    ensures forall k :: 4 <= k <= 20 ==> LowerBound(IntLess, s, k) == (k - 4) / 2
  {
    assert forall i :: 0 <= i < |s| ==> s[i] == 5 + 2 * i;
    forall k | 4 <= k <= 20
      ensures LowerBound(IntLess, s, k) == (k - 4) / 2
    {
      LowerBoundUnique(IntLess, s, k, (k - 4) / 2);
    }
  }

  /** On {5,7,9,...,19}, upper_bound(k) for every k from 4 to 20. */
  lemma UpperBoundExamples(s: seq<int>)
    requires s == [5, 7, 9, 11, 13, 15, 17, 19]
    ensures forall k :: 4 <= k <= 20 ==> UpperBound(IntLess, s, k) == (k - 3) / 2
  {
    assert forall i :: 0 <= i < |s| ==> s[i] == 5 + 2 * i;
    forall k | 4 <= k <= 20
      ensures UpperBound(IntLess, s, k) == (k - 3) / 2
    {
      UpperBoundUnique(IntLess, s, k, (k - 3) / 2);
    }
  }

  /** On {5,7,9,...,19}, equal_range(k) for every k from 4 to 20: one
      slot for a stored key, an empty range between neighbours for an
      absent one. */
  lemma EqualRangeExamples(s: seq<int>)
    requires s == [5, 7, 9, 11, 13, 15, 17, 19]
    ensures forall k :: 4 <= k <= 20 ==> EqualRange(IntLess, s, k) == ((k - 4) / 2, (k - 3) / 2)
  {
    IntLessIsTotal();
    assert forall i :: 0 <= i < |s| ==> s[i] == 5 + 2 * i;
    LowerBoundExamples(s);
    UpperBoundExamples(s);
    forall k | 4 <= k <= 20
      ensures EqualRange(IntLess, s, k) == ((k - 4) / 2, (k - 3) / 2)
    {
      EqualRangeBounds(IntLess, s, k);
    }
  }

  /** On {5,6,...,12}, find(k) is k's position for a stored k and end()
      for 4, and count(k) is 1 and 0 respectively. */
  lemma FindCountExamples(s: seq<int>)
    requires s == [5, 6, 7, 8, 9, 10, 11, 12]
    ensures forall k :: 5 <= k <= 12 ==> Find(IntLess, s, k) == k - 5 && Count(IntLess, s, k) == 1
    ensures Find(IntLess, s, 4) == |s| && Count(IntLess, s, 4) == 0
  {
    IntLessIsTotal();
    assert forall i :: 0 <= i < |s| ==> s[i] == 5 + i;
    forall k | 5 <= k <= 12
      ensures Find(IntLess, s, k) == k - 5 && Count(IntLess, s, k) == 1
    {
      assert Equiv(IntLess, s[k - 5], k);
      FindPosition(IntLess, s, k);
      EqualRangeBounds(IntLess, s, k);
      LowerBoundUnique(IntLess, s, k, k - 5);
    }
    LowerBoundUnique(IntLess, s, 4, 0);
  }

  // Erasure

  /** EraseKey on {1,...,8}: erasing 9, which is not stored, changes
      nothing and returns 0. */
  lemma EraseKeyAbsentExample(s: seq<int>)
    requires s == [1, 2, 3, 4, 5, 6, 7, 8]
    ensures EraseKey(IntLess, s, 9) == (s, 0)
  {
    LowerBoundUnique(IntLess, s, 9, 8);
    assert s[..8] + s[8..] == s;
  }

  /** EraseKey, cumulatively from {1,...,8}: erasing 4 and then 1
      removes each and returns 1. */
  lemma EraseKeyExamples(s: seq<int>, s1: seq<int>, s2: seq<int>)
    requires s == [1, 2, 3, 4, 5, 6, 7, 8]
    requires s1 == [1, 2, 3, 5, 6, 7, 8] && s2 == [2, 3, 5, 6, 7, 8]
    ensures EraseKey(IntLess, s, 4) == (s1, 1)
    ensures EraseKey(IntLess, s1, 1) == (s2, 1)
  {
    EraseAt(IntLess, s, 4, 3);
    assert s[..3] + s[4..] == s1;
    EraseAt(IntLess, s1, 1, 0);
    assert s1[..0] + s1[1..] == s2;
  }

  /** EraseKey, continued from {2,3,5,6,7,8}: erasing 8 and then 3
      removes each and returns 1. */
  lemma EraseKeyExamplesNext(s2: seq<int>, s3: seq<int>, s4: seq<int>)
    requires s2 == [2, 3, 5, 6, 7, 8] && s3 == [2, 3, 5, 6, 7] && s4 == [2, 5, 6, 7]
    ensures EraseKey(IntLess, s2, 8) == (s3, 1)
    ensures EraseKey(IntLess, s3, 3) == (s4, 1)
  {
    EraseAt(IntLess, s2, 8, 5);
    assert s2[..5] + s2[6..] == s3;
    EraseAt(IntLess, s3, 3, 1);
    assert s3[..1] + s3[2..] == s4;
  }

  /** EraseKey, continued from {2,5,6,7}: erasing 6, 7, 2 and 5 in turn
      removes each, returns 1, and leaves the container empty. */
  lemma EraseKeyExamplesRest(s4: seq<int>, s5: seq<int>, s6: seq<int>, s7: seq<int>)
    requires s4 == [2, 5, 6, 7] && s5 == [2, 5, 7] && s6 == [2, 5] && s7 == [5]
    ensures EraseKey(IntLess, s4, 6) == (s5, 1)
    ensures EraseKey(IntLess, s5, 7) == (s6, 1)
    ensures EraseKey(IntLess, s6, 2) == (s7, 1)
    ensures EraseKey(IntLess, s7, 5) == ([], 1)
  {
    EraseAt(IntLess, s4, 6, 2);
    assert s4[..2] + s4[3..] == s5;
    EraseAt(IntLess, s5, 7, 2);
    assert s5[..2] + s5[3..] == s6;
    EraseAt(IntLess, s6, 2, 0);
    assert s6[..0] + s6[1..] == s7;
    EraseAt(IntLess, s7, 5, 0);
  }

  /** `!(elem & 1)`, the first predicate of the EraseIf test. */
  predicate IsEven(x: int) { x % 2 == 0 }

  /** `elem & 1`, the second predicate of the EraseIf test. */
  predicate IsOdd(x: int) { x % 2 == 1 }

  /** EraseIf: nothing is removed from an empty container, and removing
      the even elements of {1,2,3} leaves {1,3}. */
  lemma EraseIfExamples(s: seq<int>)
    requires s == [1, 2, 3]
    ensures RemoveIf([], (x: int) => false) == []
    ensures RemoveIf(s, IsEven) == [1, 3]
  {
    KeepStep(s, 0, [], IsEven);
    KeepStep(s, 1, [1], IsEven);
    KeepStep(s, 2, [1], IsEven);
    assert s[..3] == s;
  }

  /** EraseIf: removing the odd elements of {1,2,3,4} leaves {2,4}. */
  lemma EraseIfOddExample(t: seq<int>)
    requires t == [1, 2, 3, 4]
    ensures RemoveIf(t, IsOdd) == [2, 4]
  {
    KeepStep(t, 0, [], IsOdd);
    KeepStep(t, 1, [], IsOdd);
    KeepStep(t, 2, [2], IsOdd);
    KeepStep(t, 3, [2], IsOdd);
    assert t[..4] == t;
  }

  // Comparison

  /** Comparison: three ReversedTree containers compared by int's own
      order, although their comparator is greater<int>. */
  lemma ComparisonExample()
    ensures var biggest := FromSeq(IntGreater, [3]);
      var smallest := FromSeq(IntGreater, [1]);
      var middle := FromSeq(IntGreater, [1, 2]);
      && middle == [2, 1]
      && NotEqual(biggest, smallest)
      && LexLess(IntLess, smallest, middle)
      && LessEq(IntLess, smallest, middle)
      && LessEq(IntLess, middle, middle)
      && Greater(IntLess, biggest, middle)
      && GreaterEq(IntLess, biggest, middle)
      && GreaterEq(IntLess, biggest, biggest)
  {
    assert FromSeq(IntGreater, [1]) == [1];
    IntLessIsTotal();
    LexLessIrreflexive(IntLess, [2, 1]);
    LexLessIrreflexive(IntLess, [3]);
  }

  // The container itself

  /** InsertLValue: the position and result of each of four inserts
      into an initially empty container. */
  lemma InsertExamples(empty: seq<int>)
    requires empty == []
    ensures var r1 := Insert(IntLess, empty, 2);
      var r2 := Insert(IntLess, r1.elems, 1);
      var r3 := Insert(IntLess, r2.elems, 3);
      var r4 := Insert(IntLess, r3.elems, 3);
      && r1 == InsertResult([2], 0, true)
      && r2 == InsertResult([1, 2], 0, true)
      && r3 == InsertResult([1, 2, 3], 2, true)
      && r4 == InsertResult([1, 2, 3], 2, false)
  {
    InsertAt(IntLess, empty, 2, 0);
    var s1 := Insert(IntLess, empty, 2).elems;
    assert s1 == [2];
    InsertAt(IntLess, s1, 1, 0);
    var s2 := Insert(IntLess, s1, 1).elems;
    assert s2 == [1, 2];
    InsertAt(IntLess, s2, 3, 2);
    var s3 := Insert(IntLess, s2, 3).elems;
    assert s3 == [1, 2, 3];
    InsertKept(IntLess, s3, 3, 2);
  }

  /** Size, on a container: inserting 2, 1 and 3 grows it by one each
      time, erasing at begin() three times shrinks it by one each time. */
  method SizeScenario() returns (sizes: seq<nat>)
    ensures sizes == [0, 1, 2, 3, 2, 1, 0]
  {
    var cont, grown := SizeGrow();
    var shrunk := SizeShrink(cont);
    sizes := grown + shrunk;
  }

  /** One insert of the Size test: `x` belongs at `p`, so it is added
      there, and the new size is reported. */
  method InsertAndSize(cont: FlatTree<int>, x: int, p: nat) returns (n: nat)
    requires cont.Valid() && p <= |cont.Elements()|
    requires forall i :: 0 <= i < p ==> cont.less(cont.Elements()[i], x)
    requires p < |cont.Elements()| ==> cont.less(x, cont.Elements()[p]) && !cont.less(cont.Elements()[p], x)
    modifies cont, cont.buf
    ensures cont.Valid() && cont.less == old(cont.less)
    ensures cont.buf == old(cont.buf) || fresh(cont.buf)
    ensures cont.Elements() == old(cont.Elements())[..p] + [x] + old(cont.Elements())[p..]
    ensures n == |cont.Elements()|
  {
    InsertAt(cont.less, cont.Elements(), x, p);
    var pos, inserted := cont.Insert(x);
    n := cont.Size();
  }

  /** One erasure of the Size test: begin() is erased and the new size
      is reported. */
  method EraseFrontAndSize(cont: FlatTree<int>) returns (n: nat)
    requires cont.Valid() && |cont.Elements()| > 0
    modifies cont, cont.buf
    ensures cont.Valid() && cont.less == old(cont.less) && cont.buf == old(cont.buf)
    ensures cont.Elements() == old(cont.Elements())[1..]
    ensures n == |cont.Elements()|
  {
    var next := cont.Erase(0);
    n := cont.Size();
  }

  /** The first half of the Size test: three inserts into a new container. */
  method SizeGrow() returns (cont: FlatTree<int>, sizes: seq<nat>)
    ensures fresh(cont) && fresh(cont.buf) && cont.Valid() && cont.Elements() == [1, 2, 3]
    ensures sizes == [0, 1, 2, 3]
  {
    assert StrictWeakOrder(IntLess) by { IntLessIsTotal(); }
    cont := new FlatTree<int>(IntLess);
    var n0 := cont.Size();
    var n1 := InsertAndSize(cont, 2, 0);
    assert cont.Elements() == [2];
    var n2 := InsertAndSize(cont, 1, 0);
    assert cont.Elements() == [1, 2];
    var n3 := InsertAndSize(cont, 3, 2);
    assert cont.Elements() == [1, 2, 3];
    sizes := [n0, n1, n2, n3];
  }

  /** The second half of the Size test: three erasures at begin(). */
  method SizeShrink(cont: FlatTree<int>) returns (sizes: seq<nat>)
    requires cont.Valid() && cont.Elements() == [1, 2, 3]
    modifies cont, cont.buf
    ensures sizes == [2, 1, 0]
  {
    var n4 := EraseFrontAndSize(cont);
    var n5 := EraseFrontAndSize(cont);
    var n6 := EraseFrontAndSize(cont);
    sizes := [n4, n5, n6];
  }

  /** Empty: a new container is empty, one insert makes it non-empty,
      clear() empties it again. */
  method EmptyScenario() returns (answers: seq<bool>)
    ensures answers == [true, false, true]
  {
    assert StrictWeakOrder(IntLess) by { IntLessIsTotal(); }
    var cont := new FlatTree<int>(IntLess);
    answers := [cont.Empty()];
    InsertAt(IntLess, [], 1, 0);
    var pos, inserted := cont.Insert(1);
    answers := answers + [cont.Empty()];
    cont.Clear();
    answers := answers + [cont.Empty()];
  }

  /** InitializerListAssignable: assigning {1,2,3,4,5,6,10,8} to a
      container holding {0} drops the 0 and stores the sorted list. */
  method AssignListScenario() returns (before: nat, after: nat, elems: seq<int>)
    ensures before == 1 && after == 0
    ensures elems == [1, 2, 3, 4, 5, 6, 8, 10]
  {
    IntLessIsTotal();
    var cont := new FlatTree<int>.FromSeq(IntLess, [0]);
    FromSeqCanonical(IntLess, [0], [0]);
    before := cont.Count(0);
    InitializerListExample([1, 2, 3, 4, 5, 6, 10, 8]);
    cont.AssignList([1, 2, 3, 4, 5, 6, 10, 8]);
    after := cont.Count(0);
    elems := cont.buf[..cont.size];
  }

  /** Swap: exchanging {1,2,3} and {4}, and back. */
  method SwapScenario() returns (x1: seq<int>, y1: seq<int>, x2: seq<int>, y2: seq<int>)
    ensures x1 == [4] && y1 == [1, 2, 3]
    ensures x2 == [1, 2, 3] && y2 == [4]
  {
    assert StrictWeakOrder(IntLess) by { IntLessIsTotal(); }
    var x := new FlatTree<int>.FromSeq(IntLess, [1, 2, 3]);
    var y := new FlatTree<int>.FromSeq(IntLess, [4]);
    IntLessIsTotal();
    FromSeqCanonical(IntLess, [1, 2, 3], [1, 2, 3]);
    FromSeqCanonical(IntLess, [4], [4]);
    x.Swap(y);
    x1, y1 := x.buf[..x.size], y.buf[..y.size];
    y.Swap(x);
    x2, y2 := x.buf[..x.size], y.buf[..y.size];
  }
}
