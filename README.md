# IndexArray ordered multimaps, modelled in Dafny

IndexArray provides two Objective-C containers that map each key to an ordered list of
objects and keep the keys themselves in an ordered set, so that keys and objects can
both be reached by position.

- `PZMultiMap` (module `MultiMap`) has an optional key comparator and an optional object
  comparator. When set, they place a new key among the keys and a new object in its
  key's list.
- `PZIndexedArray` (module `IndexedArray`) is the older variant. Each axis has a selector
  hook and a comparator hook, plus flags that say whether the axis is sorted and which
  hook is in force.

The common behaviour lives in two pure modules:
- `Ordering` models the comparators and the sequence operations the containers perform:
  sorted insertion, removal of every occurrence, and lookup of a position.
- `Groups` models a container's value as a `Table`: the key sequence plus the map from
  key to list. It defines `Add` and `Remove` on tables and proves the invariants they
  preserve (one-to-one keys, the count, sortedness under lawful orderings).

Both classes keep the dictionary and the ordered key set as fields. Their mutators are
methods whose postconditions tie the new state to `Add`/`Remove` of the old state. Their
accessors are functions over the fields. A comparator block or a comparison selector is
modelled as a function from two elements to `Ascending | Same | Descending`, and nil is
modelled as `None`. The module `Scenario` is a small client: it groups three numbers
under two keys and reads them back.

## Model

| member | source | states |
|---|---|---|
| MultiMap.PZMultiMap.constructor | PZIndexedArray/PZMultiMap.h:24 | A new multimap is empty, satisfies the key/dictionary invariant, is in order and has no comparators |
| MultiMap.PZMultiMap.SetKeySortComparator | PZIndexedArray/PZMultiMap.h:26-29 | Setting the key comparator stores it and touches nothing else; the stored keys are not re-sorted |
| MultiMap.PZMultiMap.SetObjectSortComparator | PZIndexedArray/PZMultiMap.h:31-34 | Setting the object comparator stores it and touches nothing else; the stored lists are not re-sorted |
| MultiMap.PZMultiMap.KeyAtIndex | PZIndexedArray/PZMultiMap.h:37 | The key at a position of the key order, which is a key of the dictionary and occurs at no other position; None exactly when the position is at or past the key count |
| MultiMap.PZMultiMap.AllKeys | PZIndexedArray/PZMultiMap.h:39-43 | The ordered key set has no repetitions, holds exactly the dictionary's keys, and its length is the key count |
| MultiMap.PZMultiMap.KeyCount | PZIndexedArray/PZMultiMap.h:45-49 | The key count equals both the number of dictionary keys and the length of the ordered key set |
| MultiMap.PZMultiMap.HasKey | PZIndexedArray/PZMultiMap.h:51-56 | True exactly when the key is in the ordered key set |
| MultiMap.PZMultiMap.IndexForKey | PZIndexedArray/PZMultiMap.h:58-63 | None (NSNotFound) exactly when the collection lacks the key; otherwise a position below the key count at which KeyAtIndex gives the key back |
| MultiMap.PZMultiMap.ObjectForKeyAtIndex | PZIndexedArray/PZMultiMap.h:66-72 | The object at objIndex of the list of the key at keyIndex; None (nil) exactly when either position does not exist |
| MultiMap.PZMultiMap.ObjectForKey | PZIndexedArray/PZMultiMap.h:74-80 | The object at a position of the key's list; None (nil) exactly when the key is missing or the position is past the list's end |
| MultiMap.PZMultiMap.AllObjectsForKey | PZIndexedArray/PZMultiMap.h:82-87 | The key's whole list; None (nil) exactly when the key does not exist |
| MultiMap.PZMultiMap.Count | PZIndexedArray/PZMultiMap.h:89-92 | The loop sums the list lengths, and the result is the number of objects in the multimap |
| MultiMap.PZMultiMap.AddObject | PZIndexedArray/PZMultiMap.h:94-101 | The new state is Add of the old one. The key is created if missing and then holds the object. The count grows by one, and the key count grows by one exactly for a new key. Other keys' lists are unchanged. Lawful comparators keep the multimap in order |
| MultiMap.PZMultiMap.RemoveObject | PZIndexedArray/PZMultiMap.h:103-109 | The new state is Remove of the old one. The key's list no longer holds the object, and the keys and other lists are unchanged. The count drops by the number of occurrences removed. Order is kept |
| MultiMap.PZMultiMap.Copy | PZIndexedArray/PZMultiMap.h:24 | A copy has the same keys, lists and comparators as the original |
| MultiMap.MutateCopy | PZIndexedArray/PZMultiMap.h:24 | Adding to and removing from a copy leaves the original unchanged |
| IndexedArray.Selected | PZIndexedArray/PZIndexedArray.h:17-25 | The ordering in force on an axis: none unless the axis is sorted; when sorted, the comparator hook if the uses-comparator flag is set, otherwise the selector hook |
| IndexedArray.PZIndexedArray.KeyOrdering | PZIndexedArray/PZIndexedArray.h:17-25 | A key ordering is in force only while keys are sorted. It is the key comparator when usesComparatorForKeys is set, otherwise the key selector |
| IndexedArray.PZIndexedArray.ObjectOrdering | PZIndexedArray/PZIndexedArray.h:17-25 | An object ordering is in force only while objects are sorted. It is the object comparator when usesComparatorForObjects is set, otherwise the object selector |
| IndexedArray.PZIndexedArray.HooksSelected | PZIndexedArray/PZIndexedArray.h:17-25 | The hook invariant holds exactly when, on each axis, an ordering is in force if and only if that axis is sorted |
| IndexedArray.PZIndexedArray.constructor | PZIndexedArray/PZIndexedArray.h:11-26 | A new indexed array is empty, satisfies the invariant, and has no hooks and no sorting on either axis |
| IndexedArray.PZIndexedArray.SetKeySortSelector | PZIndexedArray/PZIndexedArray.h:28 | Storing a selector selects it and sorts keys by it. Clearing it stops key sorting only when the selector was the hook in force; otherwise the key ordering is unchanged. Contents and object ordering are unchanged, and a sorted axis keeps a hook |
| IndexedArray.PZIndexedArray.SetObjectSortSelector | PZIndexedArray/PZIndexedArray.h:29 | The object-axis counterpart of SetKeySortSelector; contents and key ordering are unchanged |
| IndexedArray.PZIndexedArray.SetKeySortComparator | PZIndexedArray/PZIndexedArray.h:30 | Storing a comparator selects it and sorts keys by it. Clearing it stops key sorting only when the comparator was the hook in force; otherwise the key ordering is unchanged. Contents and object ordering are unchanged |
| IndexedArray.PZIndexedArray.SetObjectSortComparator | PZIndexedArray/PZIndexedArray.h:31 | The object-axis counterpart of SetKeySortComparator; contents and key ordering are unchanged |
| IndexedArray.PZIndexedArray.KeyAtIndex | PZIndexedArray/PZIndexedArray.h:34 | The key at a position of the key order, which is a key of the dictionary and occurs at no other position; None exactly when the position is at or past the key count |
| IndexedArray.PZIndexedArray.AllKeys | PZIndexedArray/PZIndexedArray.h:35 | The ordered key set has no repetitions, holds exactly the dictionary's keys, and its length is the key count |
| IndexedArray.PZIndexedArray.KeyCount | PZIndexedArray/PZIndexedArray.h:36 | The key count equals both the number of dictionary keys and the length of the ordered key set |
| IndexedArray.PZIndexedArray.ObjectForKeyAtIndex | PZIndexedArray/PZIndexedArray.h:39 | The object at objIndex of the list of the key at keyIndex; None exactly when either position does not exist |
| IndexedArray.PZIndexedArray.ObjectForKey | PZIndexedArray/PZIndexedArray.h:40 | The object at a position of the key's list; None exactly when the key is missing or the position is past the list's end |
| IndexedArray.PZIndexedArray.AllObjectsForKey | PZIndexedArray/PZIndexedArray.h:41 | The key's whole list; None exactly when the key is not in the ordered key set |
| IndexedArray.PZIndexedArray.Count | PZIndexedArray/PZIndexedArray.h:42 | The loop sums the list lengths, and the result is the number of objects |
| IndexedArray.PZIndexedArray.AddObject | PZIndexedArray/PZIndexedArray.h:45 | The new state is Add of the old one under the key and object orderings in force. The key then holds the object. The count grows by one, and the key count grows by one exactly for a new key. Other lists are unchanged. Lawful orderings keep the array in order |
| IndexedArray.PZIndexedArray.RemoveObject | PZIndexedArray/PZIndexedArray.h:48 | The new state is Remove of the old one. The object leaves the key's list, and the keys and other lists stay. The count drops by the number of occurrences removed. Order is kept |
| IndexedArray.PZIndexedArray.Copy | PZIndexedArray/PZIndexedArray.h:11 | A copy has the same contents, hooks, flags and orderings as the original |
| IndexedArray.MutateCopy | PZIndexedArray/PZIndexedArray.h:11 | Adding to and removing from a copy leaves the original unchanged |
| Ordering.FirstAfter | PZIndexedArray/PZMultiMap.h:26-34 | The insertion point under a comparator: every element before it may stand before the new one, and the element at it sorts strictly after |
| Ordering.InsertionPoint | PZIndexedArray/PZMultiMap.h:26-34 | Without a comparator a new element goes at the end. With one, it goes after every element that may stand before it and before the first element that sorts strictly after it |
| Ordering.Insert | PZIndexedArray/PZMultiMap.h:94-101 | The insertion both AddObjects perform: the sequence grows by one and holds the new element |
| Ordering.InsertWithoutOrderAppends | PZIndexedArray/PZMultiMap.h:94-101 | Without a comparator a new key or object is appended, so insertion order is kept |
| Ordering.InsertIsPermutation | PZIndexedArray/PZMultiMap.h:94-101 | Insertion adds exactly one occurrence of the element and keeps all others |
| Ordering.InsertMembership | PZIndexedArray/PZMultiMap.h:94-101 | After insertion, an element is present exactly when it is the new one or was present before |
| Ordering.InsertKeepsDistinct | PZIndexedArray/PZMultiMap.h:39-43 | Inserting a key not yet present keeps the ordered key set free of repetitions |
| Ordering.InsertKeepsSorted | PZIndexedArray/PZMultiMap.h:26-34 | Under a total-preorder comparator, insertion at the insertion point keeps a sorted sequence sorted |
| Ordering.RemoveAll | PZIndexedArray/PZMultiMap.h:103-109 | Every occurrence of the object is removed, every other object keeps its multiplicity, and the length drops by the number of occurrences |
| Ordering.RemoveAllDistributes | PZIndexedArray/PZMultiMap.h:103-109 | Removal works element by element over a concatenation, so the elements that remain keep their original order |
| Ordering.RemoveAllKeepsSorted | PZIndexedArray/PZMultiMap.h:103-109 | Removing every occurrence keeps a sorted list sorted |
| Ordering.RemoveAbsentIsIdentity | PZIndexedArray/PZMultiMap.h:103-109 | Removing an object that does not occur leaves the list unchanged |
| Ordering.IndexOf | PZIndexedArray/PZMultiMap.h:58-63 | The first position of the element, None (NSNotFound) exactly when it does not occur |
| Ordering.DistinctCardinality | PZIndexedArray/PZMultiMap.h:45-49 | A key sequence without repetitions has as many elements as its set of keys |
| Groups.Add | PZIndexedArray/PZMultiMap.h:94-101 | Adding creates the key if needed, and the key's list grows by one and holds the object. Other lists are unchanged, and an existing key keeps the key order |
| Groups.Remove | PZIndexedArray/PZMultiMap.h:103-109 | Removing keeps every key and the key order. Only the given key's list changes, losing exactly the object's occurrences |
| Groups.AddKeepsWf | PZIndexedArray/PZMultiMap.h:94-101 | Adding keeps the one-to-one correspondence of ordered keys and dictionary keys; the key count grows by one exactly for a new key |
| Groups.AddGrowsSizeByOne | PZIndexedArray/PZMultiMap.h:94-101 | Adding grows the object count by exactly one, for a new key or an existing one |
| Groups.AddKeepsOrdered | PZIndexedArray/PZMultiMap.h:26-34 | With lawful comparators, adding keeps the keys and every list sorted |
| Groups.AddFacts | PZIndexedArray/PZIndexedArray.h:45 | One insertion keeps the invariant, adds a key exactly when it is new, adds one object, and keeps order under lawful orderings |
| Groups.RemoveShrinksSizeByOccurrences | PZIndexedArray/PZMultiMap.h:103-109 | Removing keeps the invariant and lowers the count by the number of occurrences of the object in the key's list |
| Groups.RemoveKeepsOrdered | PZIndexedArray/PZMultiMap.h:103-109 | Removing keeps the keys and every list in order |
| Groups.RemoveAbsentObjectIsNoOp | PZIndexedArray/PZMultiMap.h:103-109 | Removing an object the key's list does not hold changes nothing, including for a missing key |
| Groups.KeyCountIsNumberOfKeys | PZIndexedArray/PZMultiMap.h:45-49 | Under the invariant, the length of the ordered key set equals the number of dictionary keys |
| Groups.AddAllKeysAndSize | PZIndexedArray/PZMultiMap.h:89-92 | Any sequence of insertions into an empty multimap keeps the invariant and creates exactly the keys it names; the count is the number of insertions |
| Groups.AddAllKeyCount | PZIndexedArray/PZMultiMap.h:45-49 | After any sequence of insertions, the key count is the number of distinct keys added |
| Groups.AddAllKeepsInsertionOrder | PZIndexedArray/PZMultiMap.h:94-101 | Without comparators, keys appear in order of first insertion and each list holds its objects in insertion order |
| Groups.AddAllIsOrdered | PZIndexedArray/PZMultiMap.h:26-34 | With lawful comparators, any sequence of insertions into an empty multimap leaves it in order |
| Groups.AddAllContainsEveryPair | PZIndexedArray/PZMultiMap.h:94-101 | Every added pair can be found afterwards: its key is listed and its object is in the key's list |
| Scenario.FirstInsertion | PZIndexedArray/PZMultiMap.h:94-101 | Adding 5 under 'a' to an empty multimap creates 'a' with list [5] |
| Scenario.SecondInsertion | PZIndexedArray/PZMultiMap.h:94-101 | Adding 3 under the new key 'b' appends 'b' after 'a' when there is no key comparator |
| Scenario.ThirdInsertion | PZIndexedArray/PZMultiMap.h:26-34 | Adding 1 under 'a' with an ascending object comparator places it before 5 |
| Scenario.FinalCount | PZIndexedArray/PZMultiMap.h:89-92 | The finished grouping holds three objects |
| Scenario.GroupingContents | PZIndexedArray/PZMultiMap.h:94-101 | The three insertions give keys ['a', 'b'] with lists [1, 5] and [3] |
| Scenario.AddEach | PZIndexedArray/PZMultiMap.h:94-101 | Calling AddObject on each pair in turn leaves the multimap equal to AddAll of the pairs |
| Scenario.BuildGrouping | PZIndexedArray/PZMultiMap.h:31-34 | A new multimap with an ascending object comparator, filled with the three insertions, holds their AddAll |
| Scenario.ReadGrouping | PZIndexedArray/PZMultiMap.h:36-92 | Reading back: the keys are ['a', 'b'], the list of 'a' is [1, 5], its first object is 1, 'b' is at index 1 and the count is 3 |

## Left out

- The implementation files (PZMultiMap.m, PZIndexedArray.m) are not part of this model. The behaviour follows the headers' declared state and documentation, so every choice below that a header does not settle is a model choice.
- KeyAtIndex: an index past the last key, where Cocoa's ordered set raises a range exception, is modelled as None instead of an exception.
- Ordering.FirstAfter / Ordering.InsertionPoint: with a comparator, a new element goes after every element that does not sort after it, so ties are placed after their equals. On a sequence that is not sorted (for example after a comparator was set late) this is the first position whose element sorts after the new one, found by a linear scan. The implementation's actual placement is not visible.
- Groups.Remove, MultiMap.PZMultiMap.RemoveObject, IndexedArray.PZIndexedArray.RemoveObject: a key whose list becomes empty is kept, both in the dictionary and in the ordered key set; pruning emptied keys is not modelled.
- MultiMap.PZMultiMap.SetKeySortComparator, MultiMap.PZMultiMap.SetObjectSortComparator and the four PZIndexedArray setters: setting a hook does not re-sort what is stored. AddObject therefore guarantees order only if the container was already in order under the hooks in force.
- IndexedArray.PZIndexedArray.SetKeySortSelector, IndexedArray.PZIndexedArray.SetKeySortComparator, IndexedArray.PZIndexedArray.SetObjectSortSelector, IndexedArray.PZIndexedArray.SetObjectSortComparator: the header declares plain assign/copy properties over the private hooks and flags. The rule that setting a hook selects it, and clearing the hook in force stops sorting that axis, is a model choice for how the flags follow the hooks.
- MultiMap.PZMultiMap.Copy, IndexedArray.PZIndexedArray.Copy: copying has value semantics (the copy's sequences and map are independent values). A shallow Objective-C copy could share the mutable dictionary and ordered set with the original; that aliasing is not modelled.
- MultiMap.PZMultiMap.AddObject, IndexedArray.PZIndexedArray.AddObject: a key conforming to NSCopying is copied when it is stored; the model stores the key value itself.
- MultiMap.PZMultiMap.IndexForKey: NSNotFound is modelled as None rather than as the largest unsigned integer.
- Selectors: a comparison selector is modelled like a comparator, as a function of two elements; sending a message by selector is not modelled.
- Object identity, equality and hashing: keys and values are compared with Dafny equality; `isEqual:`/`hash` and pointer identity in "removes all pointers to the object" are not distinguished.
- Memory management (retain/release, the `copy` attribute of block properties) and thread safety (`nonatomic`) are not modelled.
- NSUInteger is modelled as an unbounded natural number; overflow of the count cannot occur in the model.
