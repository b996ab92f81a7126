/**
 * base::internal::flat_tree with identity key extraction: a sorted,
 * duplicate-free set held in one contiguous buffer. The buffer is an
 * array whose length is the capacity; its first `size` slots are the
 * elements. Every operation is proved to leave exactly the sequence the
 * functions of Search, Mutation and Relational describe.
 */
module FlatTrees {
  import opened Ordering
  import Search
  import Mutation
  import Relational

  class FlatTree<T(0, ==, !new)> {
    /** The comparator (key_comp), held by value. */
    var less: (T, T) -> bool
    /** The storage; its length is capacity(). */
    var buf: array<T>
    /** The number of live elements, at the front of `buf`. */
    var size: nat

    /** size() <= capacity(), the comparator is a strict weak order and
        the elements are in strictly ascending comparator order. */
    ghost predicate Valid()
      reads this, buf
      ensures Valid() ==> size <= buf.Length
      ensures Valid() ==> forall i, j :: 0 <= i < j < size ==> !Equiv(less, buf[i], buf[j])
    {
      && size <= buf.Length
      && StrictWeakOrder(less)
      && Sorted(less, buf[..size])
    }

    /** The elements, begin() to end(). */
    ghost function Elements(): seq<T>
      reads this, buf
      requires size <= buf.Length
    {
      buf[..size]
    }

    // Construction and assignment

    /** flat_tree(const Compare& comp): empty, with no storage. */
    constructor (lt: (T, T) -> bool)
      requires StrictWeakOrder(lt)
      ensures Valid() && fresh(buf)
      ensures Elements() == [] && less == lt
    {
      less := lt;
      buf := new T[0];
      size := 0;
    }

    /** flat_tree(first, last, comp) and flat_tree(ilist, comp): the
        distinct keys of the input, in comparator order. */
    constructor FromSeq(lt: (T, T) -> bool, input: seq<T>)
      requires StrictWeakOrder(lt)
      ensures Valid() && fresh(buf)
      ensures Elements() == Mutation.FromSeq(lt, input) && less == lt
    {
      less := lt;
      buf := new T[0];
      size := 0;
      new;
      InsertSeq(input);
    }

    /** flat_tree(const flat_tree&): a copy with its own storage. */
    constructor Copy(other: FlatTree<T>)
      requires other.Valid()
      ensures Valid() && fresh(buf)
      ensures Elements() == other.Elements() && less == other.less
    {
      var copy := CopyOf(other.buf, other.size, other.size);
      less := other.less;
      size := other.size;
      buf := copy;
    }

    /** flat_tree(flat_tree&&): takes over the other tree's storage; the
        moved-from tree is left valid and empty. */
    constructor Move(other: FlatTree<T>)
      requires other.Valid()
      modifies other
      ensures Valid() && other.Valid()
      ensures Elements() == old(other.Elements()) && less == old(other.less)
      ensures buf == old(other.buf) && other.Elements() == [] && fresh(other.buf)
    {
      less := other.less;
      buf := other.buf;
      size := other.size;
      new;
      other.buf := new T[0];
      other.size := 0;
    }

    /** operator=(const flat_tree&): this tree becomes a copy of `other`. */
    method CopyAssign(other: FlatTree<T>)
      requires Valid() && other.Valid()
      modifies this
      ensures Valid() && fresh(buf)
      ensures Elements() == old(other.Elements()) && less == old(other.less)
    {
      var copy := CopyOf(other.buf, other.size, other.size);
      less, buf, size := other.less, copy, other.size;
    }

    /** operator=(flat_tree&&): this tree takes over the storage of
        `other`, which is left valid and empty. */
    method MoveAssign(other: FlatTree<T>)
      requires Valid() && other.Valid() && other != this
      modifies this, other
      ensures Valid() && other.Valid()
      ensures Elements() == old(other.Elements()) && less == old(other.less)
      ensures buf == old(other.buf) && other.Elements() == [] && fresh(other.buf)
    {
      less, buf, size := other.less, other.buf, other.size;
      other.buf := new T[0];
      other.size := 0;
    }

    /** operator=(ilist): the old contents are dropped entirely and the
        tree holds what construction from `input` would. */
    method AssignList(input: seq<T>)
      requires Valid()
      modifies this, buf
      ensures Valid() && less == old(less)
      ensures Elements() == Mutation.FromSeq(less, input)
      ensures buf == old(buf) || fresh(buf)
    {
      Clear();
      InsertSeq(input);
    }

    /** Inserts the input elements one after another into an empty tree. */
    method InsertSeq(input: seq<T>)
      requires Valid() && Elements() == []
      modifies this, buf
      ensures Valid() && less == old(less)
      ensures Elements() == Mutation.FromSeq(less, input)
      ensures buf == old(buf) || fresh(buf)
    {
      var i := 0;
      while i < |input|
        invariant i <= |input|
        invariant Valid() && less == old(less)
        invariant Elements() == Mutation.FromSeq(less, input[..i])
        invariant buf == old(buf) || fresh(buf)
      {
        Mutation.FromSeqAppend(less, input[..i], input[i]);
        assert input[..i + 1] == input[..i] + [input[i]];
        var _, _ := Insert(input[i]);
        i := i + 1;
      }
      assert input[..i] == input;
    }

    // Capacity

    /** size() */
    function Size(): (n: nat)
      reads this, buf
      requires Valid()
      ensures n == |Elements()|
    {
      size
    }

    /** capacity(): never less than size(). */
    function Capacity(): (c: nat)
      reads this, buf
      requires Valid()
      ensures |Elements()| <= c
    {
      buf.Length
    }

    /** empty(): whether size() is 0. */
    function Empty(): (b: bool)
      reads this, buf
      requires Valid()
      ensures b <==> Elements() == []
    {
      size == 0
    }

    /** reserve(n): afterwards capacity() >= n; never shrinks and leaves
        the elements as they were. */
    method Reserve(n: nat)
      requires Valid()
      modifies this
      ensures Valid() && less == old(less) && Elements() == old(Elements())
      ensures buf.Length >= n && buf.Length >= old(buf.Length)
      ensures buf == old(buf) || fresh(buf)
    {
      if n > buf.Length {
        buf := CopyOf(buf, size, n);
      }
    }

    /** shrink_to_fit(): capacity() does not grow; the model reduces it to
        size(). */
    method ShrinkToFit()
      requires Valid()
      modifies this
      ensures Valid() && less == old(less) && Elements() == old(Elements())
      ensures buf.Length <= old(buf.Length) && buf.Length == |Elements()|
      ensures buf == old(buf) || fresh(buf)
    {
      if size < buf.Length {
        buf := CopyOf(buf, size, size);
      }
    }

    /** clear(): no elements remain; capacity() is unchanged. */
    method Clear()
      requires Valid()
      modifies this
      ensures Valid() && less == old(less) && buf == old(buf)
      ensures Elements() == []
    {
      size := 0;
    }

    /** A new array of length `n` starting with the first `len` slots of `a`. */
    static method CopyOf(a: array<T>, len: nat, n: nat) returns (b: array<T>)
      requires len <= a.Length && len <= n
      ensures fresh(b) && b.Length == n && b[..len] == a[..len]
    {
      b := new T[n];
      var i := 0;
      while i < len
        invariant i <= len
        invariant b[..i] == a[..i]
      {
        b[i] := a[i];
        i := i + 1;
      }
    }

    // Iteration and comparators

    /** rbegin() to rend(): the elements, last to first. */
    method ReverseElements() returns (r: seq<T>)
      requires Valid()
      ensures |r| == |Elements()|
      ensures forall i :: 0 <= i < |r| ==> r[i] == Elements()[|r| - 1 - i]
    {
      r := [];
      var i := size;
      while i > 0
        invariant 0 <= i <= size
        invariant |r| == size - i
        invariant forall j :: 0 <= j < |r| ==> r[j] == buf[size - 1 - j]
      {
        i := i - 1;
        r := r + [buf[i]];
      }
    }

    /** key_comp(): the comparator; the elements are sorted by it. */
    function KeyComp(): (comp: (T, T) -> bool)
      reads this, buf
      requires Valid()
      ensures IsSortedBy(comp, Elements())
    {
      SortedIsSortedBy(less, Elements());
      less
    }

    /** value_comp(): with identity key extraction, the comparator applied
        to whole elements; the elements are sorted by it. */
    function ValueComp(): (comp: (T, T) -> bool)
      reads this, buf
      requires Valid()
      ensures IsSortedBy(comp, Elements())
    {
      var lt := less;
      var comp := (a: T, b: T) => lt(a, b);
      SortedIsSortedBy(lt, Elements());
      assert forall a, b :: comp(a, b) == lt(a, b);
      comp
    }

    // Search

    /** lower_bound(k), by binary search. */
    method LowerBound(k: T) returns (p: nat)
      requires Valid()
      ensures p == Search.LowerBound(less, Elements(), k)
    {
      var lo, hi := 0, size;
      while lo < hi
        invariant 0 <= lo <= hi <= size
        invariant forall i :: 0 <= i < lo ==> less(buf[i], k)
        invariant forall i :: hi <= i < size ==> !less(buf[i], k)
      {
        var mid := lo + (hi - lo) / 2;
        if less(buf[mid], k) {
          forall i | 0 <= i < mid
            ensures less(buf[i], k)
          {
            assert less(buf[..size][i], buf[..size][mid]);
          }
          lo := mid + 1;
        } else {
          forall i | mid < i < size
            ensures !less(buf[i], k)
          {
            assert less(buf[..size][mid], buf[..size][i]);
          }
          hi := mid;
        }
      }
      Search.LowerBoundUnique(less, Elements(), k, lo);
      p := lo;
    }

    /** upper_bound(k), by binary search. */
    method UpperBound(k: T) returns (p: nat)
      requires Valid()
      ensures p == Search.UpperBound(less, Elements(), k)
    {
      var lo, hi := 0, size;
      while lo < hi
        invariant 0 <= lo <= hi <= size
        invariant forall i :: 0 <= i < lo ==> !less(k, buf[i])
        invariant forall i :: hi <= i < size ==> less(k, buf[i])
      {
        var mid := lo + (hi - lo) / 2;
        if less(k, buf[mid]) {
          forall i | mid < i < size
            ensures less(k, buf[i])
          {
            assert less(buf[..size][mid], buf[..size][i]);
          }
          hi := mid;
        } else {
          forall i | 0 <= i < mid
            ensures !less(k, buf[i])
          {
            assert less(buf[..size][i], buf[..size][mid]);
          }
          lo := mid + 1;
        }
      }
      Search.UpperBoundUnique(less, Elements(), k, lo);
      p := lo;
    }

    /** equal_range(k): lower_bound(k), and the slot after it when that
        slot holds an element equivalent to `k`. */
    method EqualRange(k: T) returns (first: nat, last: nat)
      requires Valid()
      ensures (first, last) == Search.EqualRange(less, Elements(), k)
      ensures first == Search.LowerBound(less, Elements(), k)
      ensures last == Search.UpperBound(less, Elements(), k)
    {
      first := LowerBound(k);
      if first == size || less(k, buf[first]) {
        last := first;
      } else {
        last := first + 1;
      }
      Search.EqualRangeBounds(less, Elements(), k);
    }

    /** find(k): the position of the element equivalent to `k`, or
        end() == size() when there is none. */
    method Find(k: T) returns (p: nat)
      requires Valid()
      ensures p == Search.Find(less, Elements(), k)
      ensures p < |Elements()| <==> Search.Contains(less, Elements(), k)
    {
      var first, last := EqualRange(k);
      p := if first == last then size else first;
      Search.FindPosition(less, Elements(), k);
    }

    /** count(k): 0 or 1, the number of elements equivalent to `k`. */
    method Count(k: T) returns (n: nat)
      requires Valid()
      ensures n == Search.Occurrences(less, Elements(), k)
      ensures n == 1 <==> Search.Contains(less, Elements(), k)
      ensures n <= 1
    {
      var first, last := EqualRange(k);
      n := last - first;
      Search.CountIsOccurrences(less, Elements(), k);
      Search.EqualRangeBounds(less, Elements(), k);
    }

    // Insertion

    /** insert(val): adds `x` when no equivalent element is stored and
        reports its position and true; otherwise reports the stored
        element's position and false and changes nothing. */
    method Insert(x: T) returns (pos: nat, inserted: bool)
      requires Valid()
      modifies this, buf
      ensures Valid() && less == old(less)
      ensures buf == old(buf) || fresh(buf)
      ensures Mutation.Insert(less, old(Elements()), x) == Mutation.InsertResult(Elements(), pos, inserted)
    {
      ghost var s := Elements();
      pos := LowerBound(x);
      if pos < size && !less(x, buf[pos]) {
        inserted := false;
        return;
      }
      inserted := true;
      Mutation.InsertSorted(less, s, x);
      Emplace(pos, x);
    }

    /** insert(hint, val): puts `x` at the hint when it belongs exactly
        there, otherwise behaves as insert(val); either way the result is
        that of insert(val). */
    method InsertHint(hint: nat, x: T) returns (pos: nat)
      requires Valid() && hint <= |Elements()|
      modifies this, buf
      ensures Valid() && less == old(less)
      ensures buf == old(buf) || fresh(buf)
      ensures (Elements(), pos) == Mutation.InsertHint(less, old(Elements()), hint, x)
      ensures Elements() == Mutation.Insert(less, old(Elements()), x).elems
      ensures pos == Mutation.Insert(less, old(Elements()), x).pos
    {
      ghost var s := Elements();
      Mutation.InsertHintAgrees(less, s, hint, x);
      if (hint == size || less(x, buf[hint])) && (hint == 0 || less(buf[hint - 1], x)) {
        Mutation.InsertSorted(less, s, x);
        Emplace(hint, x);
        pos := hint;
      } else {
        var inserted;
        pos, inserted := Insert(x);
      }
    }

    /** emplace(args...): the element is built first and then inserted as
        by insert(val). */
    method EmplaceValue(x: T) returns (pos: nat, inserted: bool)
      requires Valid()
      modifies this, buf
      ensures Valid() && less == old(less)
      ensures buf == old(buf) || fresh(buf)
      ensures Mutation.Insert(less, old(Elements()), x) == Mutation.InsertResult(Elements(), pos, inserted)
    {
      pos, inserted := Insert(x);
    }

    /** emplace_hint(hint, args...): the element is built first and then
        inserted as by insert(hint, val). */
    method EmplaceHint(hint: nat, x: T) returns (pos: nat)
      requires Valid() && hint <= |Elements()|
      modifies this, buf
      ensures Valid() && less == old(less)
      ensures buf == old(buf) || fresh(buf)
      ensures Elements() == Mutation.Insert(less, old(Elements()), x).elems
      ensures pos == Mutation.Insert(less, old(Elements()), x).pos
    {
      pos := InsertHint(hint, x);
    }

    /** Puts `x` at position `p`, shifting the tail right by one and
        growing the storage when it is full (the unchecked insertion the
        public operations use once they know the position). */
    method Emplace(p: nat, x: T)
      requires Valid() && p <= |Elements()|
      requires Sorted(less, Elements()[..p] + [x] + Elements()[p..])
      modifies this, buf
      ensures Valid() && less == old(less)
      ensures buf == old(buf) || fresh(buf)
      ensures Elements() == old(Elements())[..p] + [x] + old(Elements())[p..]
    {
      ghost var s := Elements();
      if size == buf.Length {
        Reserve(if buf.Length == 0 then 1 else 2 * buf.Length);
      }
      assert buf[..size] == s;
      ShiftRight(buf, p, size);
      buf[p] := x;
      size := size + 1;
      assert buf[..p] == s[..p];
      assert buf[p + 1..size] == s[p..];
      assert Elements() == buf[..p] + [x] + buf[p + 1..size];
    }

    /** Moves the slots [p, n) of `a` one slot right, to [p + 1, n + 1). */
    static method ShiftRight(a: array<T>, p: nat, n: nat)
      requires p <= n < a.Length
      modifies a
      ensures a[..p] == old(a[..p])
      ensures a[p + 1..n + 1] == old(a[p..n])
    {
      var j := n;
      while j > p
        invariant p <= j <= n
        invariant forall i :: 0 <= i < j ==> a[i] == old(a[i])
        invariant forall i :: j < i <= n ==> a[i] == old(a[i - 1])
      {
        a[j] := a[j - 1];
        j := j - 1;
      }
    }

    /** Moves the slots [last, n) of `a` left onto [first, n - (last - first)). */
    static method ShiftLeft(a: array<T>, first: nat, last: nat, n: nat)
      requires first <= last <= n <= a.Length
      modifies a
      ensures a[..first] == old(a[..first])
      ensures a[first..n - (last - first)] == old(a[last..n])
    {
      var gap := last - first;
      var i := first;
      while i + gap < n
        invariant first <= i <= n - gap
        invariant forall j :: 0 <= j < first ==> a[j] == old(a[j])
        invariant forall j :: first <= j < i ==> a[j] == old(a[j + gap])
        invariant forall j :: i + gap <= j < n ==> a[j] == old(a[j])
      {
        a[i] := a[i + gap];
        i := i + 1;
      }
    }

    // Erasure

    /** erase(position): removes the element at `pos`; returns `pos`,
        which is end() when the last element was removed. */
    method Erase(pos: nat) returns (next: nat)
      requires Valid() && pos < |Elements()|
      modifies this, buf
      ensures Valid() && less == old(less) && buf == old(buf)
      ensures Elements() == old(Elements())[..pos] + old(Elements())[pos + 1..]
      ensures next == pos
    {
      next := EraseRange(pos, pos + 1);
    }

    /** erase(first, last): removes the positions [first, last) in one
        shift and returns `first`. */
    method EraseRange(first: nat, last: nat) returns (next: nat)
      requires Valid() && first <= last <= |Elements()|
      modifies this, buf
      ensures Valid() && less == old(less) && buf == old(buf)
      ensures Elements() == old(Elements())[..first] + old(Elements())[last..]
      ensures next == first
    {
      ghost var s := Elements();
      ShiftLeft(buf, first, last, size);
      size := size - (last - first);
      assert buf[..first] == s[..first] && buf[first..size] == s[last..];
      assert Elements() == buf[..first] + buf[first..size];
      SortedCut(less, s, first, last);
      next := first;
    }

    /** erase(key): removes the element equivalent to `k`, if any, and
        returns how many were removed (0 or 1). */
    method EraseKey(k: T) returns (n: nat)
      requires Valid()
      modifies this, buf
      ensures Valid() && less == old(less) && buf == old(buf)
      ensures (Elements(), n) == Mutation.EraseKey(less, old(Elements()), k)
    {
      var first, last := EqualRange(k);
      var _ := EraseRange(first, last);
      n := last - first;
    }

    /** EraseIf(pred): removes every element satisfying `pred` in one
        left-compacting pass, keeping the survivors in order. */
    method EraseIf(pred: T -> bool)
      requires Valid()
      modifies this, buf
      ensures Valid() && less == old(less) && buf == old(buf)
      ensures Elements() == Mutation.RemoveIf(old(Elements()), pred)
    {
      ghost var s := Elements();
      var w := Compact(buf, size, pred);
      Mutation.RemoveIfSorted(less, s, pred);
      size := w;
    }

    /** The compaction pass of EraseIf: moves the first `n` slots' elements
        that do not satisfy `pred` to the front, in order, and returns how
        many there are. */
    static method Compact(a: array<T>, n: nat, pred: T -> bool) returns (w: nat)
      requires n <= a.Length
      modifies a
      ensures w <= n
      ensures a[..w] == Mutation.RemoveIf(old(a[..n]), pred)
    {
      ghost var s := a[..n];
      var r := 0;
      w := 0;
      while r < n
        invariant w <= r <= n
        invariant a[..w] == Mutation.RemoveIf(s[..r], pred)
        invariant a[r..n] == s[r..]
      {
        ghost var kept := a[..w];
        assert s[..r + 1][..r] == s[..r];
        assert a[r] == s[r];
        if !pred(a[r]) {
          a[w] := a[r];
          assert a[..w + 1] == kept + [s[r]];
          w := w + 1;
        }
        r := r + 1;
      }
      assert s[..r] == s;
    }

    // Whole-container operations

    /** swap(other): exchanges the elements, the storage and the
        comparators of the two trees. */
    method Swap(other: FlatTree<T>)
      requires Valid() && other.Valid()
      modifies this, other
      ensures Valid() && other.Valid()
      ensures Elements() == old(other.Elements()) && other.Elements() == old(Elements())
      ensures less == old(other.less) && other.less == old(less)
      ensures buf == old(other.buf) && other.buf == old(buf)
    {
      less, other.less := other.less, less;
      buf, other.buf := other.buf, buf;
      size, other.size := other.size, size;
    }

    /** operator==: the same elements in the same order. */
    method Equals(other: FlatTree<T>) returns (eq: bool)
      requires Valid() && other.Valid()
      ensures eq <==> Elements() == other.Elements()
    {
      if size != other.size {
        return false;
      }
      var i := 0;
      while i < size
        invariant i <= size
        invariant buf[..i] == other.buf[..i]
      {
        if buf[i] != other.buf[i] {
          assert Elements()[i] != other.Elements()[i];
          return false;
        }
        i := i + 1;
      }
      eq := true;
    }

    /** operator<: lexicographic comparison by the elements' own order
        `natural`, not by either tree's comparator. */
    method LessThan(other: FlatTree<T>, natural: (T, T) -> bool) returns (lt: bool)
      requires Valid() && other.Valid()
      ensures lt == Relational.LexLess(natural, Elements(), other.Elements())
    {
      ghost var a, b := Elements(), other.Elements();
      var i := 0;
      while i < size && i < other.size
        invariant i <= size && i <= other.size
        invariant Relational.LexLess(natural, a, b) == Relational.LexLess(natural, a[i..], b[i..])
      {
        if natural(buf[i], other.buf[i]) {
          return true;
        }
        if natural(other.buf[i], buf[i]) {
          return false;
        }
        assert a[i..][1..] == a[i + 1..] && b[i..][1..] == b[i + 1..];
        i := i + 1;
      }
      lt := i == size && i < other.size;
    }
  }
}
