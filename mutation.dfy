/**
 * The mutations of flat_tree as functions of the comparator and the
 * element sequence: insert (plain and hinted), erase by key, construction
 * from an input sequence, and EraseIf. The container class performs each
 * of them in place and is proved to produce exactly these sequences.
 */
module Mutation {
  import opened Ordering
  import opened Search

  /** What insert reports, together with the new contents: the position
      of the element equivalent to the value, and whether it was added. */
  datatype InsertResult<T> = InsertResult(elems: seq<T>, pos: nat, inserted: bool)

  /** insert(val): find lower_bound; when the element there is equivalent
      to `x`, leave everything as it is and report that position;
      otherwise put `x` there. */
  function Insert<T>(lt: (T, T) -> bool, s: seq<T>, x: T): (r: InsertResult<T>)
    ensures r.pos <= |s| && r.pos < |r.elems|
    ensures |r.elems| == |s| + (if r.inserted then 1 else 0)
  {
    var p := LowerBound(lt, s, x);
    if p == |s| || lt(x, s[p]) then InsertResult(s[..p] + [x] + s[p..], p, true)
    else InsertResult(s, p, false)
  }

  /** insert(hint, val): when `x` belongs exactly at the hint (strictly
      between its neighbours) it is put there without a search; otherwise
      this is plain insert. */
  function InsertHint<T>(lt: (T, T) -> bool, s: seq<T>, hint: nat, x: T): (r: (seq<T>, nat))
    requires hint <= |s|
    ensures r.1 <= |s| && r.1 < |r.0|
    ensures |s| <= |r.0| <= |s| + 1
  {
    if (hint == |s| || lt(x, s[hint])) && (hint == 0 || lt(s[hint - 1], x)) then
      (s[..hint] + [x] + s[hint..], hint)
    else
      var plain := Insert(lt, s, x);
      (plain.elems, plain.pos)
  }

  /** erase(key): erase equal_range(key) and report its length. */
  function EraseKey<T>(lt: (T, T) -> bool, s: seq<T>, k: T): (r: (seq<T>, nat))
    ensures r.1 <= 1 && |r.0| + r.1 == |s|
  {
    var range := EqualRange(lt, s, k);
    (s[..range.0] + s[range.1..], range.1 - range.0)
  }

  /** Construction from an input sequence, as the model performs it: the
      elements are inserted one after another in input order, so the first
      of several equivalent elements is the one kept. */
  function FromSeq<T>(lt: (T, T) -> bool, xs: seq<T>): (r: seq<T>)
  {
    if xs == [] then [] else Insert(lt, FromSeq(lt, xs[..|xs| - 1]), xs[|xs| - 1]).elems
  }

  /** EraseIf(pred): the elements that do not satisfy `pred`, in order. */
  function RemoveIf<T>(s: seq<T>, pred: T -> bool): (r: seq<T>)
    ensures |r| <= |s|
  {
    if s == [] then []
    else RemoveIf(s[..|s| - 1], pred) + (if pred(s[|s| - 1]) then [] else [s[|s| - 1]])
  }

  // construction

  /** Construction never yields more elements than the input has, and a
      non-empty input yields a non-empty container. */
  lemma {:induction false} FromSeqLength<T>(lt: (T, T) -> bool, xs: seq<T>)
    ensures |FromSeq(lt, xs)| <= |xs|
    ensures |xs| > 0 ==> |FromSeq(lt, xs)| > 0
  {
    if xs != [] {
      FromSeqLength(lt, xs[..|xs| - 1]);
    }
  }

  // insert

  /** Inserting keeps the buffer sorted, and the reported position holds
      an element equivalent to the inserted value. */
  lemma InsertSorted<T(!new)>(lt: (T, T) -> bool, s: seq<T>, x: T)
    requires StrictWeakOrder(lt) && Sorted(lt, s)
    ensures Sorted(lt, Insert(lt, s, x).elems)
    ensures Equiv(lt, Insert(lt, s, x).elems[Insert(lt, s, x).pos], x)
  {
    var p := LowerBound(lt, s, x);
    LowerBoundPartition(lt, s, x);
    if p == |s| || lt(x, s[p]) {
      var r := s[..p] + [x] + s[p..];
      forall i | p < i < |r|
        ensures lt(x, r[i])
      {
        assert r[i] == s[i - 1];
        if i - 1 > p {
          assert lt(s[p], s[i - 1]);
        }
      }
      forall i, j | 0 <= i < j < |r|
        ensures lt(r[i], r[j])
      {
        if j < p {
          assert r[i] == s[i] && r[j] == s[j];
        } else if i > p {
          assert r[i] == s[i - 1] && r[j] == s[j - 1];
        } else if i < p && j > p {
          assert r[i] == s[i] && r[j] == s[j - 1];
        }
      }
    }
  }

  /** Inserting a value with no equivalent adds exactly that value, at
      its lower_bound, and reports true. */
  lemma InsertAbsent<T>(lt: (T, T) -> bool, s: seq<T>, x: T)
    requires !Contains(lt, s, x)
    ensures var r := Insert(lt, s, x);
      && r.inserted
      && r.pos == LowerBound(lt, s, x)
      && r.elems == s[..r.pos] + [x] + s[r.pos..]
      && r.elems[r.pos] == x
      && |r.elems| == |s| + 1
      && multiset(r.elems) == multiset(s) + multiset{x}
  {
    var p := LowerBound(lt, s, x);
    if p < |s| {
      assert !Equiv(lt, s[p], x);
    }
    assert s == s[..p] + s[p..];
    assert multiset(s[..p] + [x] + s[p..]) == multiset(s[..p]) + multiset{x} + multiset(s[p..]);
  }

  /** Inserting a value equivalent to the element at `i` changes nothing:
      the stored element is not replaced, and insert reports `i` and
      false. */
  lemma InsertPresent<T(!new)>(lt: (T, T) -> bool, s: seq<T>, x: T, i: nat)
    requires StrictWeakOrder(lt) && Sorted(lt, s)
    requires i < |s| && Equiv(lt, s[i], x)
    ensures Insert(lt, s, x) == InsertResult(s, i, false)
  {
    forall j | 0 <= j < i
      ensures lt(s[j], x)
    {
      assert lt(s[j], s[i]);
      EquivSubstitute(lt, s[i], x, s[j]);
    }
    LowerBoundUnique(lt, s, x, i);
  }

  /** insert reports true exactly when no equivalent element was stored. */
  lemma InsertReportsAbsence<T(!new)>(lt: (T, T) -> bool, s: seq<T>, x: T)
    requires StrictWeakOrder(lt) && Sorted(lt, s)
    ensures Insert(lt, s, x).inserted <==> !Contains(lt, s, x)
  {
    if Contains(lt, s, x) {
      var i :| 0 <= i < |s| && Equiv(lt, s[i], x);
      InsertPresent(lt, s, x, i);
    } else {
      InsertAbsent(lt, s, x);
    }
  }

  /** A hinted insert gives the same contents and the same position as
      plain insert, whatever the hint. */
  lemma InsertHintAgrees<T(!new)>(lt: (T, T) -> bool, s: seq<T>, hint: nat, x: T)
    requires StrictWeakOrder(lt) && Sorted(lt, s)
    requires hint <= |s|
    ensures InsertHint(lt, s, hint, x) == (Insert(lt, s, x).elems, Insert(lt, s, x).pos)
  {
    if (hint == |s| || lt(x, s[hint])) && (hint == 0 || lt(s[hint - 1], x)) {
      forall j | 0 <= j < hint
        ensures lt(s[j], x)
      {
        if j < hint - 1 {
          assert lt(s[j], s[hint - 1]);
        }
      }
      LowerBoundUnique(lt, s, x, hint);
    }
  }

  // erase(key)

  /** erase(key) of a stored key removes exactly that element and
      reports 1; of an absent key it changes nothing and reports 0. No
      element equivalent to the key remains. */
  lemma EraseKeyEffect<T(!new)>(lt: (T, T) -> bool, s: seq<T>, k: T)
    requires StrictWeakOrder(lt) && Sorted(lt, s)
    ensures var r := EraseKey(lt, s, k);
      && (Contains(lt, s, k) ==>
            r.1 == 1 && r.0 == s[..Find(lt, s, k)] + s[Find(lt, s, k) + 1..])
      && (!Contains(lt, s, k) ==> r.1 == 0 && r.0 == s)
      && Sorted(lt, r.0)
      && !Contains(lt, r.0, k)
  {
    var range := EqualRange(lt, s, k);
    EqualRangeBounds(lt, s, k);
    FindPosition(lt, s, k);
    SortedCut(lt, s, range.0, range.1);
    if !Contains(lt, s, k) {
      assert s[..range.0] + s[range.0..] == s;
    }
    EraseKeyRemovesAll(lt, s, k);
  }

  /** What erase(key) leaves is ordered before or after the key, never
      equivalent to it. */
  lemma EraseKeyRemovesAll<T(!new)>(lt: (T, T) -> bool, s: seq<T>, k: T)
    requires StrictWeakOrder(lt) && Sorted(lt, s)
    ensures !Contains(lt, EraseKey(lt, s, k).0, k)
  {
    var range := EqualRange(lt, s, k);
    EqualRangeBounds(lt, s, k);
    UpperBoundPartition(lt, s, k);
    var rest := EraseKey(lt, s, k).0;
    forall i | 0 <= i < |rest|
      ensures !Equiv(lt, rest[i], k)
    {
      if i < range.0 {
        assert rest[i] == s[i];
      } else {
        assert rest[i] == s[i + (range.1 - range.0)];
      }
    }
  }

  // Construction

  /** A constructed buffer is sorted: its keys are distinct and in
      ascending comparator order. */
  lemma {:induction false} FromSeqSorted<T(!new)>(lt: (T, T) -> bool, xs: seq<T>)
    requires StrictWeakOrder(lt)
    ensures Sorted(lt, FromSeq(lt, xs))
  {
    if xs != [] {
      FromSeqSorted(lt, xs[..|xs| - 1]);
      InsertSorted(lt, FromSeq(lt, xs[..|xs| - 1]), xs[|xs| - 1]);
    }
  }

  /** Every element of a constructed buffer comes from the input, and
      every input element has an equivalent in the buffer: one input
      element per key survives. */
  lemma FromSeqKeys<T(!new)>(lt: (T, T) -> bool, xs: seq<T>)
    requires StrictWeakOrder(lt)
    ensures forall y :: y in FromSeq(lt, xs) ==> y in xs
    ensures forall i :: 0 <= i < |xs| ==> Contains(lt, FromSeq(lt, xs), xs[i])
  {
    FromSeqMembers(lt, xs);
    FromSeqCovers(lt, xs);
  }

  /** Construction adds nothing that is not in the input. */
  lemma {:induction false} FromSeqMembers<T>(lt: (T, T) -> bool, xs: seq<T>)
    ensures forall y :: y in FromSeq(lt, xs) ==> y in xs
  {
    if xs != [] {
      var init, last := xs[..|xs| - 1], xs[|xs| - 1];
      FromSeqMembers(lt, init);
      var prev := FromSeq(lt, init);
      var r := Insert(lt, prev, last);
      forall y | y in r.elems
        ensures y in xs
      {
        if r.inserted && y != last {
          assert r.elems == prev[..r.pos] + [last] + prev[r.pos..];
          assert y in prev[..r.pos] || y in prev[r.pos..];
          assert y in prev;
          assert y in init;
        } else if y != last {
          assert y in init;
        }
      }
    }
  }

  /** Construction loses no key: every input element has an equivalent in
      the constructed buffer. */
  lemma {:induction false} FromSeqCovers<T(!new)>(lt: (T, T) -> bool, xs: seq<T>)
    requires StrictWeakOrder(lt)
    ensures forall i :: 0 <= i < |xs| ==> Contains(lt, FromSeq(lt, xs), xs[i])
  {
    if xs != [] {
      var init, last := xs[..|xs| - 1], xs[|xs| - 1];
      var prev := FromSeq(lt, init);
      FromSeqCovers(lt, init);
      FromSeqSorted(lt, init);
      var r := Insert(lt, prev, last);
      InsertSorted(lt, prev, last);
      InsertKeeps(lt, prev, last);
      forall i | 0 <= i < |xs|
        ensures Contains(lt, r.elems, xs[i])
      {
        if i < |xs| - 1 {
          assert xs[i] == init[i];
          var j :| 0 <= j < |prev| && Equiv(lt, prev[j], init[i]);
          var j' :| 0 <= j' < |r.elems| && r.elems[j'] == prev[j];
        }
      }
    }
  }

  /** Inserting never removes a stored element. */
  lemma InsertKeeps<T>(lt: (T, T) -> bool, s: seq<T>, x: T)
    ensures forall j :: 0 <= j < |s| ==> exists j' :: 0 <= j' < |Insert(lt, s, x).elems| && Insert(lt, s, x).elems[j'] == s[j]
  {
    var r := Insert(lt, s, x);
    forall j | 0 <= j < |s|
      ensures exists j' :: 0 <= j' < |r.elems| && r.elems[j'] == s[j]
    {
      if !r.inserted {
        assert r.elems[j] == s[j];
      } else if j < r.pos {
        assert r.elems[j] == s[j];
      } else {
        assert r.elems[j + 1] == s[j];
      }
    }
  }

  /** Under a total order a constructed buffer is determined by the set
      of input values: it is the sorted sequence of them. */
  lemma FromSeqCanonical<T(!new)>(lt: (T, T) -> bool, xs: seq<T>, r: seq<T>)
    requires StrictTotalOrder(lt) && Sorted(lt, r)
    requires forall y :: y in r <==> y in xs
    ensures FromSeq(lt, xs) == r
  {
    var built := FromSeq(lt, xs);
    FromSeqSorted(lt, xs);
    FromSeqKeys(lt, xs);
    forall y
      ensures y in built <==> y in xs
    {
      if y in xs {
        var i :| 0 <= i < |xs| && xs[i] == y;
        var j :| 0 <= j < |built| && Equiv(lt, built[j], xs[i]);
        assert built[j] == y;
      }
    }
    SortedByElements(lt, built, r);
  }

  /** Constructing a container and then inserting values is the same as
      constructing it from the longer input: assignment from a list and
      construction agree. */
  lemma FromSeqAppend<T>(lt: (T, T) -> bool, xs: seq<T>, x: T)
    ensures FromSeq(lt, xs + [x]) == Insert(lt, FromSeq(lt, xs), x).elems
  {
    assert (xs + [x])[..|xs + [x]| - 1] == xs;
  }

  // EraseIf

  /** EraseIf keeps exactly the elements that do not satisfy the
      predicate. */
  lemma {:induction false} RemoveIfMembers<T(!new)>(s: seq<T>, pred: T -> bool)
    ensures forall y :: y in RemoveIf(s, pred) <==> y in s && !pred(y)
  {
    if s != [] {
      var init := s[..|s| - 1];
      RemoveIfMembers(init, pred);
      assert s == init + [s[|s| - 1]];
    }
  }

  /** EraseIf keeps the survivors in their order, so the buffer stays
      sorted. */
  lemma {:induction false} RemoveIfSorted<T(!new)>(lt: (T, T) -> bool, s: seq<T>, pred: T -> bool)
    requires Sorted(lt, s)
    ensures Sorted(lt, RemoveIf(s, pred))
  {
    if s != [] {
      var init, last := s[..|s| - 1], s[|s| - 1];
      SortedSlice(lt, s, 0, |s| - 1);
      RemoveIfSorted(lt, init, pred);
      RemoveIfMembers(init, pred);
      var kept := RemoveIf(init, pred);
      if !pred(last) {
        forall i | 0 <= i < |kept|
          ensures lt(kept[i], last)
        {
          assert kept[i] in RemoveIf(init, pred);
          assert kept[i] in init;
          var j :| 0 <= j < |init| && init[j] == kept[i];
          assert s[j] == kept[i];
        }
      }
    }
  }
}
