# flat_tree: a sorted, duplicate-free container in one contiguous buffer

This project models `base::internal::flat_tree` with identity key
extraction (every element is its own key), as its unit test
`containers/flat_tree_unittest.cc` pins it down. The container is a
set kept as a strictly ascending sequence in one buffer. It is ordered
by a user-supplied comparator that must be a strict weak order.
Searches answer with positions, where `size()` plays the role of `end()`.
Mutations shift the tail of the buffer in place.

The project has two layers.

- Specification functions over sequences:
  - `Ordering` defines strict weak orders, key equivalence, the sorted
    invariant and the comparators the tests use: `std::less<int>`,
    `std::greater<int>` (the `ReversedTree` alias) and the first-component
    order of the stability test.
  - `Search` defines `lower_bound`, `upper_bound`, `equal_range`, `find`
    and `count`.
  - `Mutation` defines `insert`, hinted insert, `erase(key)`,
    construction from an input sequence, and `EraseIf`.
  - `Relational` defines the lexicographic comparison behind `<`, `<=`,
    `>`, `>=` and the equality operators.
- The container itself, the class `FlatTrees.FlatTree`. It holds the
  comparator, an `array` whose length is `capacity()`, and a count
  `size` of live elements at the front. Its invariant `Valid()` says
  three things: `size <= capacity`, the comparator is a strict weak
  order, and the elements are strictly ascending, so keys are unique.
  Every method keeps `Valid()`. Every method is proved to leave exactly
  the sequence the specification function gives. Where the unit test
  uses iterators, the model uses indices.

`Scenarios` restates the unit tests' concrete expectations against the
model: exact contents, positions and counts.

Construction follows the source's behaviour, not a stronger promise.
Construction from a range or a list inserts the elements one after
another in input order. So, in this model, the first input element of
each key is the one kept. The test says "Constructors are not stable"
(`containers/flat_tree_unittest.cc:193`). Keeping the first occurrence
is this model's own choice, not a claim about the source. The general construction lemmas (`FromSeqSorted`, `FromSeqKeys`,
`FromSeqCanonical`) state only what any survivor choice satisfies:
- the result is sorted;
- every element comes from the input;
- every input key is present;
- under a total order, the result is the sorted set of input values.

Only `StabilityConstruction` shows the concrete survivors this model
picks.

## Model

| member | source | states |
|---|---|---|
| Ordering.IntLess | containers/flat_tree_unittest.cc:139-140 | `std::less<int>`, the comparator of `IntTree`: `a` is ordered before `b` when `a < b` (its properties are stated by `IntLessIsTotal`) |
| Ordering.IntGreater | containers/flat_tree_unittest.cc:149-150 | `std::greater<int>`, the comparator of `ReversedTree`: `a` is ordered before `b` when `a > b` (its properties are stated by `IntGreaterIsTotal`) |
| Ordering.LessByFirst | containers/flat_tree_unittest.cc:184-188 | the stability test's comparator: pairs are ordered by their first component only (its properties are stated by `LessByFirstIsWeak`) |
| Ordering.IntLessIsTotal | containers/flat_tree_unittest.cc:139-140 | `std::less<int>`, the comparator of `IntTree`, is a strict total order |
| Ordering.IntGreaterIsTotal | containers/flat_tree_unittest.cc:149-150 | `std::greater<int>`, the comparator of `ReversedTree`, is a strict total order |
| Ordering.LessByFirstIsWeak | containers/flat_tree_unittest.cc:184-191 | comparing pairs by their first component is a strict weak order but not a total one: distinct pairs can be equivalent |
| Search.LowerBound | containers/flat_tree_unittest.cc:1065-1129 | lower_bound is a position no greater than size; everything before it is ordered before the key, and the element at it is not |
| Search.UpperBound | containers/flat_tree_unittest.cc:1134-1198 | upper_bound is a position no greater than size; nothing before it is ordered after the key, and the element at it is |
| Search.EqualRange | containers/flat_tree_unittest.cc:891-1063 | equal_range is a range of at most one slot inside the buffer |
| Search.Find | containers/flat_tree_unittest.cc:846-889 | find returns end() or a position holding an element equivalent to the key |
| Search.Count | containers/flat_tree_unittest.cc:814-841 | count is 0 or 1 |
| Search.LowerBoundPartition | containers/flat_tree_unittest.cc:1065-1129 | on a sorted buffer, no element from lower_bound on is ordered before the key |
| Search.UpperBoundPartition | containers/flat_tree_unittest.cc:1134-1198 | on a sorted buffer, every element from upper_bound on is ordered after the key |
| Search.LowerBoundUnique | containers/flat_tree_unittest.cc:1065-1129 | any position with the lower_bound partition property is lower_bound |
| Search.UpperBoundUnique | containers/flat_tree_unittest.cc:1134-1198 | any position with the upper_bound partition property is upper_bound |
| Search.EqualRangeBounds | containers/flat_tree_unittest.cc:891-1063 | equal_range is (lower_bound, upper_bound), and it holds one slot exactly when the key is present |
| Search.FindPosition | containers/flat_tree_unittest.cc:846-889 | find is below end() exactly when an equivalent element is stored, and then it equals lower_bound |
| Search.CountSkipsSmaller | containers/flat_tree_unittest.cc:814-841 | when the first element is ordered before the key, count(key) is the count in the rest of the buffer |
| Search.UniqueKeys | containers/flat_tree_unittest.cc:814-841 | in a sorted buffer no two positions hold equivalent elements |
| Search.CountIsOccurrences | containers/flat_tree_unittest.cc:814-841 | count equals the number of stored elements equivalent to the key |
| Mutation.Insert | containers/flat_tree_unittest.cc:499-529 | insert reports a position inside the new buffer and no greater than the old size, and the buffer grows by one element exactly when it reports true |
| Mutation.InsertHint | containers/flat_tree_unittest.cc:563-586 | hinted insert reports a position inside the new buffer and no greater than the old size, and grows the buffer by at most one element |
| Mutation.InsertSorted | containers/flat_tree_unittest.cc:787-807 | insert keeps the buffer sorted, and the reported position holds an element equivalent to the value |
| Mutation.InsertAbsent | containers/flat_tree_unittest.cc:499-517 | inserting an absent value puts exactly that value at its lower_bound, reports true, and grows the buffer by one (as a multiset, by that value) |
| Mutation.InsertPresent | containers/flat_tree_unittest.cc:523-528 | inserting a value equivalent to a stored one changes nothing, replaces nothing, and reports that element's position and false |
| Mutation.InsertReportsAbsence | containers/flat_tree_unittest.cc:499-529 | insert reports true exactly when no equivalent element was stored |
| Mutation.InsertHintAgrees | containers/flat_tree_unittest.cc:563-586 | a hinted insert gives the same contents and position as plain insert, whatever the hint |
| Mutation.InsertKeeps | containers/flat_tree_unittest.cc:181-214 | insert never removes a stored element |
| Mutation.EraseKey | containers/flat_tree_unittest.cc:751-780 | erase(key) removes at most one element and returns exactly how many elements it removed |
| Mutation.EraseKeyEffect | containers/flat_tree_unittest.cc:751-780 | erase(key) of a stored key removes exactly that element and returns 1; of an absent key it changes nothing and returns 0; the result stays sorted |
| Mutation.EraseKeyRemovesAll | containers/flat_tree_unittest.cc:751-780 | after erase(key) no element equivalent to the key remains |
| Mutation.FromSeq | containers/flat_tree_unittest.cc:269-328 | construction from a range or list, as insertion of each input element in turn; its properties are stated by the FromSeq lemmas below |
| Mutation.FromSeqLength | containers/flat_tree_unittest.cc:269-328 | construction never yields more elements than the input has, and a non-empty input yields a non-empty container |
| Mutation.FromSeqSorted | containers/flat_tree_unittest.cc:269-328 | a constructed buffer is strictly ascending |
| Mutation.FromSeqMembers | containers/flat_tree_unittest.cc:269-328 | every element of a constructed buffer comes from the input |
| Mutation.FromSeqCovers | containers/flat_tree_unittest.cc:269-328 | every input element has an equivalent in the constructed buffer |
| Mutation.FromSeqKeys | containers/flat_tree_unittest.cc:269-328 | both of the above together: one input element per key survives |
| Mutation.FromSeqCanonical | containers/flat_tree_unittest.cc:269-328 | under a total order, the constructed buffer is the sorted sequence of the input's values |
| Mutation.RemoveIf | containers/flat_tree_unittest.cc:1240-1253 | EraseIf's result, in order, is never longer than the input (what it keeps is stated by `RemoveIfMembers`) |
| Mutation.RemoveIfMembers | containers/flat_tree_unittest.cc:1240-1253 | EraseIf keeps exactly the elements that do not satisfy the predicate |
| Mutation.RemoveIfSorted | containers/flat_tree_unittest.cc:1240-1253 | EraseIf keeps the buffer sorted |
| Relational.LexLess | containers/flat_tree_unittest.cc:1218-1238 | operator<: nothing is less than the empty container, and a proper prefix is less than the longer container |
| Relational.NotEqual | containers/flat_tree_unittest.cc:1218-1238 | operator!=: the containers differ in length or at some position |
| Relational.Greater | containers/flat_tree_unittest.cc:1218-1238 | operator>: an empty container is greater than no container, and a container is greater than each of its proper prefixes |
| Relational.LessEq | containers/flat_tree_unittest.cc:1218-1238 | operator<=: the empty container is <= every container, and no non-empty container is <= the empty one |
| Relational.GreaterEq | containers/flat_tree_unittest.cc:1218-1238 | operator>=: every container is >= the empty one, and the empty container is >= no non-empty one |
| Relational.LexLessIrreflexive | containers/flat_tree_unittest.cc:1225-1238 | no container is less than itself |
| Relational.LexLessTransitive | containers/flat_tree_unittest.cc:1225-1238 | the lexicographic order is transitive |
| Relational.LexTrichotomy | containers/flat_tree_unittest.cc:1225-1238 | under a total element order exactly one of a < b, a == b, b < a holds |
| Relational.LessEqMeaning | containers/flat_tree_unittest.cc:1225-1238 | under a total element order, <= means "< or ==" and >= means "> or ==" |
| FlatTrees.FlatTree.Valid | containers/flat_tree_unittest.cc:787-807 | the container invariant: size() is at most capacity(), the comparator is a strict weak order, the elements are strictly ascending, and so no two stored elements are equivalent |
| FlatTrees.FlatTree.constructor | containers/flat_tree_unittest.cc:253-263 | the default and comparator constructors give a valid empty tree holding that comparator |
| FlatTrees.FlatTree.FromSeq | containers/flat_tree_unittest.cc:269-328 | the range and list constructors give a valid tree holding the constructed buffer of the input |
| FlatTrees.FlatTree.Copy | containers/flat_tree_unittest.cc:290-299 | the copy has the same elements and comparator in fresh storage |
| FlatTrees.FlatTree.Move | containers/flat_tree_unittest.cc:303-314 | the new tree takes the elements and storage; the moved-from tree is left valid and empty |
| FlatTrees.FlatTree.CopyAssign | containers/flat_tree_unittest.cc:335-343 | after copy assignment the tree has the other's elements and comparator in fresh storage |
| FlatTrees.FlatTree.MoveAssign | containers/flat_tree_unittest.cc:347-358 | after move assignment the tree has the other's elements and storage; the other is valid and empty |
| FlatTrees.FlatTree.AssignList | containers/flat_tree_unittest.cc:362-368 | list assignment drops the old contents and leaves the constructed buffer of the list |
| FlatTrees.FlatTree.InsertSeq | containers/flat_tree_unittest.cc:269-328 | inserting the input one element at a time into an empty tree gives the constructed buffer |
| FlatTrees.FlatTree.Size | containers/flat_tree_unittest.cc:415-431 | size() is the number of elements |
| FlatTrees.FlatTree.Capacity | containers/flat_tree_unittest.cc:384-390 | capacity() is never less than size() |
| FlatTrees.FlatTree.Empty | containers/flat_tree_unittest.cc:435-443 | empty() holds exactly when there are no elements |
| FlatTrees.FlatTree.Reserve | containers/flat_tree_unittest.cc:375-380 | after reserve(n) capacity() is at least n and not smaller than before; the elements are unchanged |
| FlatTrees.FlatTree.ShrinkToFit | containers/flat_tree_unittest.cc:394-400 | shrink_to_fit() never increases capacity() and leaves the elements unchanged |
| FlatTrees.FlatTree.Clear | containers/flat_tree_unittest.cc:407-411 | clear() leaves no elements and keeps the storage |
| FlatTrees.FlatTree.CopyOf | containers/flat_tree_unittest.cc:290-299 | a fresh array of the requested length starting with the copied slots |
| FlatTrees.FlatTree.ReverseElements | containers/flat_tree_unittest.cc:463-492 | rbegin() to rend() visits the same elements as begin() to end(), last to first |
| FlatTrees.FlatTree.KeyComp | containers/flat_tree_unittest.cc:787-795 | the elements are sorted by key_comp() |
| FlatTrees.FlatTree.ValueComp | containers/flat_tree_unittest.cc:799-807 | the elements are sorted by value_comp() |
| FlatTrees.FlatTree.LowerBound | containers/flat_tree_unittest.cc:1065-1129 | binary search returns lower_bound |
| FlatTrees.FlatTree.UpperBound | containers/flat_tree_unittest.cc:1134-1198 | binary search returns upper_bound |
| FlatTrees.FlatTree.EqualRange | containers/flat_tree_unittest.cc:891-1063 | equal_range returns (lower_bound, upper_bound) |
| FlatTrees.FlatTree.Find | containers/flat_tree_unittest.cc:846-889 | find returns a position below end() exactly when the key is present |
| FlatTrees.FlatTree.Count | containers/flat_tree_unittest.cc:814-841 | count is the number of equivalent elements; it is 1 exactly when the key is present |
| FlatTrees.FlatTree.Insert | containers/flat_tree_unittest.cc:499-529 | insert leaves exactly the contents, position and flag of the insert function, keeping the tree valid |
| FlatTrees.FlatTree.InsertHint | containers/flat_tree_unittest.cc:563-586 | hinted insert leaves the same contents and position as plain insert |
| FlatTrees.FlatTree.EmplaceValue | containers/flat_tree_unittest.cc:616-647 | emplace behaves as insert of the built element |
| FlatTrees.FlatTree.EmplaceHint | containers/flat_tree_unittest.cc:652-679 | emplace_hint behaves as plain insert of the built element, whatever the hint |
| FlatTrees.FlatTree.Emplace | containers/flat_tree_unittest.cc:499-529 | the in-place insertion at a known position shifts the tail right and grows full storage |
| FlatTrees.FlatTree.ShiftRight | containers/flat_tree_unittest.cc:499-529 | the slots [p, n) move one slot right; the slots before p are unchanged |
| FlatTrees.FlatTree.ShiftLeft | containers/flat_tree_unittest.cc:724-747 | the slots from `last` on move left onto `first`; the slots before `first` are unchanged |
| FlatTrees.FlatTree.Erase | containers/flat_tree_unittest.cc:686-720 | erase(pos) removes exactly that element, keeps the others in order and returns pos |
| FlatTrees.FlatTree.EraseRange | containers/flat_tree_unittest.cc:724-747 | erase(first, last) removes exactly [first, last) and returns first; an empty range changes nothing |
| FlatTrees.FlatTree.EraseKey | containers/flat_tree_unittest.cc:751-780 | erase(key) leaves exactly the contents and count of the erase function |
| FlatTrees.FlatTree.EraseIf | containers/flat_tree_unittest.cc:1240-1253 | EraseIf leaves exactly the elements that do not satisfy the predicate, in order |
| FlatTrees.FlatTree.Compact | containers/flat_tree_unittest.cc:1240-1253 | one compacting pass moves the kept elements to the front in order |
| FlatTrees.FlatTree.Swap | containers/flat_tree_unittest.cc:1206-1216 | swap exchanges the elements, storage and comparators of the two trees |
| FlatTrees.FlatTree.Equals | containers/flat_tree_unittest.cc:1225-1238 | == holds exactly when both trees have the same elements in the same order |
| FlatTrees.FlatTree.LessThan | containers/flat_tree_unittest.cc:1225-1238 | < is the lexicographic comparison by the elements' own order |
| Scenarios.RangeConstructorExample | containers/flat_tree_unittest.cc:269-286 | {1,1,1,2,2,2,3,3,3} gives {1,2,3} |
| Scenarios.InitializerListExample | containers/flat_tree_unittest.cc:318-328 | {1,2,3,4,5,6,10,8} gives {1,2,3,4,5,6,8,10}, where count(0) is 0 |
| Scenarios.StabilityConstruction | containers/flat_tree_unittest.cc:193-194 | the stability input keeps one pair per first component, here (0,0), (1,0), (2,0) |
| Scenarios.StabilityInserts | containers/flat_tree_unittest.cc:196-213 | inserting (0,2), (1,2), (2,2) changes nothing; (3,0) is added and (3,2) then is not; no stored pair has second component 2 |
| Scenarios.InsertExamples | containers/flat_tree_unittest.cc:499-529 | inserting 2, 1, 3, 3 into an empty tree gives the test's positions, flags and contents |
| Scenarios.LowerBoundExamples | containers/flat_tree_unittest.cc:1065-1129 | on {5,7,...,19}, lower_bound(k) is (k-4)/2 for every k from 4 to 20 |
| Scenarios.UpperBoundExamples | containers/flat_tree_unittest.cc:1134-1198 | on {5,7,...,19}, upper_bound(k) is (k-3)/2 for every k from 4 to 20 |
| Scenarios.EqualRangeExamples | containers/flat_tree_unittest.cc:891-1063 | on {5,7,...,19}, equal_range(k) is ((k-4)/2, (k-3)/2) for every k from 4 to 20 |
| Scenarios.FindCountExamples | containers/flat_tree_unittest.cc:814-889 | on {5,...,12}, find(k) is k-5 and count(k) is 1 for each stored k; find(4) is end() and count(4) is 0 |
| Scenarios.EraseKeyAbsentExample | containers/flat_tree_unittest.cc:754-756 | on {1,...,8}, erasing 9 changes nothing and returns 0 |
| Scenarios.EraseKeyExamples | containers/flat_tree_unittest.cc:758-762 | from {1,...,8}, erasing 4 and then 1 leaves {1,2,3,5,6,7,8} and then {2,3,5,6,7,8}, returning 1 each time |
| Scenarios.EraseKeyExamplesNext | containers/flat_tree_unittest.cc:764-768 | continuing, erasing 8 and then 3 leaves {2,3,5,6,7} and then {2,5,6,7}, returning 1 each time |
| Scenarios.EraseKeyExamplesRest | containers/flat_tree_unittest.cc:770-779 | continuing, erasing 6, 7, 2 and 5 leaves {2,5,7}, {2,5}, {5} and then nothing, returning 1 each time |
| Scenarios.EraseIfExamples | containers/flat_tree_unittest.cc:1240-1247 | EraseIf on an empty tree gives {}, and removing the even elements of {1,2,3} gives {1,3} |
| Scenarios.EraseIfOddExample | containers/flat_tree_unittest.cc:1249-1251 | removing the odd elements of {1,2,3,4} gives {2,4} |
| Scenarios.ComparisonExample | containers/flat_tree_unittest.cc:1225-1238 | three ReversedTree containers compare by int's own order: != , <, <=, >, >= hold as the test checks |
| Scenarios.SizeScenario | containers/flat_tree_unittest.cc:415-431 | inserting 2, 1, 3 into a new container and then erasing at begin() three times gives the sizes 0, 1, 2, 3, 2, 1, 0 |
| Scenarios.EmptyScenario | containers/flat_tree_unittest.cc:435-443 | a new container is empty, it is not after one insert, and it is again after clear() |
| Scenarios.AssignListScenario | containers/flat_tree_unittest.cc:362-368 | a container built from {0} has count(0) 1; after assigning {1,2,3,4,5,6,10,8} count(0) is 0 and the elements are {1,2,3,4,5,6,8,10} |
| Scenarios.SwapScenario | containers/flat_tree_unittest.cc:1206-1216 | swapping {1,2,3} and {4} exchanges their elements, and swapping back restores them |

## Left out

- The implementation header `base/containers/flat_tree.h` is not part of this model. The behaviour is taken from the unit test's assertions. The model's algorithms (binary search, in-place shifts, one-pass compaction) are the standard ones for a sorted vector.
- Key extraction other than identity is left out. Every tree in the test uses `GetKeyFromValueIdentity`, so keys are whole elements.
- The sort-and-deduplicate algorithm of bulk construction is left out. Construction is modelled as insertion in input order. The source does not promise which duplicate survives, so only the general construction lemmas are claims about the source.
- The exact growth policy is not promised. The model doubles full storage, or allocates one slot when there is none. Capacity is stated only through the bounds the test checks.
- FlatTrees.FlatTree.ShrinkToFit: the source promises only that capacity does not grow. The model reduces capacity to size, which is one admissible behaviour.
- Iterator types are left out: const versus mutable, reverse iterators, equality between iterator kinds, and iterator invalidation. Positions are indices, and reverse iteration is `ReverseElements`.
- Move-only elements (`MoveOnlyInt`) are modelled as plain values. `Emplaceable` is left out: its move semantics and `double` field are outside the model. Emplace takes the already-built element.
- The `InputIterator` adaptor and the gmock matchers are left out. They are test plumbing; the input is a sequence.
- The compile-time tests are left out: the incomplete-type instantiation and the `static_assert` type aliases (lines 167-179 and 234-245).
- Allocation failure and exceptions are left out.
- FlatTrees.FlatTree.MoveAssign: requires that the two trees differ. Self-move-assignment is unspecified in C++.
- The free function `swap(x, y)` is not modelled separately. It is the member `Swap`.
- `debug/activity_analyzer.cc` is not part of this model: it reads memory-mapped snapshots through foreign allocator calls and the clock.
- `task_scheduler/task_scheduler.cc` is not part of this model: it is a global thread-pool singleton.
