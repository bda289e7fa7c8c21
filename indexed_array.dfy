/**
 PZIndexedArray: the older ordered multimap. Its state is the dictionary of lists, the
 ordered set of keys, a selector hook and a comparator hook per axis, and four flags:
 sortsKeys/sortsObjects say whether an axis is sorted at all, and
 usesComparatorForKeys/usesComparatorForObjects pick the comparator hook over the
 selector hook. A selector (a comparison method sent to the elements themselves) is
 modelled, like a comparator, as a function of two elements.
 */
module IndexedArray {
  import opened Wrappers
  import opened Ordering
  import opened Groups

  /** The one ordering in force on an axis: none when the axis is not sorted, else the selected hook. */
  function Selected<T>(sorts: bool, usesComparator: bool, comparator: Option<Comparator<T>>, selector: Option<Comparator<T>>): (r: Option<Comparator<T>>)
    ensures !sorts ==> r.None?
    ensures sorts && usesComparator ==> r == comparator
    ensures sorts && !usesComparator ==> r == selector
  {
    if !sorts then None else if usesComparator then comparator else selector
  }

  class PZIndexedArray<K(==,!new), V(==,!new)> {
    var dictionary: map<K, seq<V>>
    var orderedKeys: seq<K>

    var keySortSelector: Option<Comparator<K>>
    var objectSortSelector: Option<Comparator<V>>
    var keySortComparator: Option<Comparator<K>>
    var objectSortComparator: Option<Comparator<V>>

    var sortsKeys: bool
    var sortsObjects: bool
    var usesComparatorForKeys: bool
    var usesComparatorForObjects: bool

    function Contents(): Table<K, V>
      reads this`orderedKeys, this`dictionary
    {
      Table(orderedKeys, dictionary)
    }

    /** The one key ordering in force: none, the comparator hook or the selector hook. */
    function KeyOrdering(): (r: Option<Comparator<K>>)
      reads this`sortsKeys, this`usesComparatorForKeys, this`keySortComparator, this`keySortSelector
      ensures r.Some? ==> sortsKeys
      ensures sortsKeys && usesComparatorForKeys ==> r == keySortComparator
      ensures sortsKeys && !usesComparatorForKeys ==> r == keySortSelector
    {
      Selected(sortsKeys, usesComparatorForKeys, keySortComparator, keySortSelector)
    }

    /** The one object ordering in force: none, the comparator hook or the selector hook. */
    function ObjectOrdering(): (r: Option<Comparator<V>>)
      reads this`sortsObjects, this`usesComparatorForObjects, this`objectSortComparator, this`objectSortSelector
      ensures r.Some? ==> sortsObjects
      ensures sortsObjects && usesComparatorForObjects ==> r == objectSortComparator
      ensures sortsObjects && !usesComparatorForObjects ==> r == objectSortSelector
    {
      Selected(sortsObjects, usesComparatorForObjects, objectSortComparator, objectSortSelector)
    }

    /** A sorted axis always has its selected hook set: on each axis an ordering is in force exactly when it is sorted. */
    ghost predicate HooksSelected(): (b: bool)
      reads this`sortsKeys, this`usesComparatorForKeys, this`keySortComparator, this`keySortSelector
      reads this`sortsObjects, this`usesComparatorForObjects, this`objectSortComparator, this`objectSortSelector
      ensures b <==> (KeyOrdering().Some? <==> sortsKeys) && (ObjectOrdering().Some? <==> sortsObjects)
    {
      && (sortsKeys ==> Selected(sortsKeys, usesComparatorForKeys, keySortComparator, keySortSelector).Some?)
      && (sortsObjects ==> Selected(sortsObjects, usesComparatorForObjects, objectSortComparator, objectSortSelector).Some?)
    }

    /** The structural invariant: the ordered set of keys is exactly the keys of the dictionary, each once. */
    ghost predicate Valid()
      reads this`orderedKeys, this`dictionary
    {
      Wf(Contents())
    }

    /** The keys sorted under the key ordering in force and every list under the object ordering. */
    ghost predicate InOrder()
      reads this
    {
      Ordered(Contents(),
              Selected(sortsKeys, usesComparatorForKeys, keySortComparator, keySortSelector),
              Selected(sortsObjects, usesComparatorForObjects, objectSortComparator, objectSortSelector))
    }

    ghost predicate LawfulOrderings()
      reads this`sortsKeys, this`usesComparatorForKeys, this`keySortComparator, this`keySortSelector
      reads this`sortsObjects, this`usesComparatorForObjects, this`objectSortComparator, this`objectSortSelector
    {
      Lawful(Selected(sortsKeys, usesComparatorForKeys, keySortComparator, keySortSelector),
             Selected(sortsObjects, usesComparatorForObjects, objectSortComparator, objectSortSelector))
    }

    constructor ()
      ensures Valid() && HooksSelected() && InOrder()
      ensures Contents() == Empty()
      ensures KeyOrdering() == None && ObjectOrdering() == None
      ensures keySortSelector == None && objectSortSelector == None
      ensures keySortComparator == None && objectSortComparator == None
    {
      dictionary := map[];
      orderedKeys := [];
      keySortSelector := None;
      objectSortSelector := None;
      keySortComparator := None;
      objectSortComparator := None;
      sortsKeys, sortsObjects := false, false;
      usesComparatorForKeys, usesComparatorForObjects := false, false;
    }

    // ordering hooks: setting one selects it for its axis; clearing the selected one stops sorting that axis

    method SetKeySortSelector(sel: Option<Comparator<K>>)
      modifies this`keySortSelector, this`sortsKeys, this`usesComparatorForKeys
      ensures old(HooksSelected()) ==> HooksSelected()
      ensures keySortSelector == sel
      ensures sel.Some? ==> sortsKeys && !usesComparatorForKeys && KeyOrdering() == sel
      ensures sel.None? ==> usesComparatorForKeys == old(usesComparatorForKeys)
      ensures sel.None? && !old(usesComparatorForKeys) ==> !sortsKeys && KeyOrdering() == None
      ensures sel.None? && old(usesComparatorForKeys) ==> sortsKeys == old(sortsKeys) && KeyOrdering() == old(KeyOrdering())
      ensures Contents() == old(Contents()) && ObjectOrdering() == old(ObjectOrdering())
    {
      keySortSelector := sel;
      if sel.Some? {
        sortsKeys, usesComparatorForKeys := true, false;
      } else if !usesComparatorForKeys {
        sortsKeys := false;
      }
    }

    method SetKeySortComparator(c: Option<Comparator<K>>)
      modifies this`keySortComparator, this`sortsKeys, this`usesComparatorForKeys
      ensures old(HooksSelected()) ==> HooksSelected()
      ensures keySortComparator == c
      ensures c.Some? ==> sortsKeys && usesComparatorForKeys && KeyOrdering() == c
      ensures c.None? ==> usesComparatorForKeys == old(usesComparatorForKeys)
      ensures c.None? && old(usesComparatorForKeys) ==> !sortsKeys && KeyOrdering() == None
      ensures c.None? && !old(usesComparatorForKeys) ==> sortsKeys == old(sortsKeys) && KeyOrdering() == old(KeyOrdering())
      ensures Contents() == old(Contents()) && ObjectOrdering() == old(ObjectOrdering())
    {
      keySortComparator := c;
      if c.Some? {
        sortsKeys, usesComparatorForKeys := true, true;
      } else if usesComparatorForKeys {
        sortsKeys := false;
      }
    }

    method SetObjectSortSelector(sel: Option<Comparator<V>>)
      modifies this`objectSortSelector, this`sortsObjects, this`usesComparatorForObjects
      ensures old(HooksSelected()) ==> HooksSelected()
      ensures objectSortSelector == sel
      ensures sel.Some? ==> sortsObjects && !usesComparatorForObjects && ObjectOrdering() == sel
      ensures sel.None? ==> usesComparatorForObjects == old(usesComparatorForObjects)
      ensures sel.None? && !old(usesComparatorForObjects) ==> !sortsObjects && ObjectOrdering() == None
      ensures sel.None? && old(usesComparatorForObjects) ==> sortsObjects == old(sortsObjects) && ObjectOrdering() == old(ObjectOrdering())
      ensures Contents() == old(Contents()) && KeyOrdering() == old(KeyOrdering())
    {
      objectSortSelector := sel;
      if sel.Some? {
        sortsObjects, usesComparatorForObjects := true, false;
      } else if !usesComparatorForObjects {
        sortsObjects := false;
      }
    }

    method SetObjectSortComparator(c: Option<Comparator<V>>)
      modifies this`objectSortComparator, this`sortsObjects, this`usesComparatorForObjects
      ensures old(HooksSelected()) ==> HooksSelected()
      ensures objectSortComparator == c
      ensures c.Some? ==> sortsObjects && usesComparatorForObjects && ObjectOrdering() == c
      ensures c.None? ==> usesComparatorForObjects == old(usesComparatorForObjects)
      ensures c.None? && old(usesComparatorForObjects) ==> !sortsObjects && ObjectOrdering() == None
      ensures c.None? && !old(usesComparatorForObjects) ==> sortsObjects == old(sortsObjects) && ObjectOrdering() == old(ObjectOrdering())
      ensures Contents() == old(Contents()) && KeyOrdering() == old(KeyOrdering())
    {
      objectSortComparator := c;
      if c.Some? {
        sortsObjects, usesComparatorForObjects := true, true;
      } else if usesComparatorForObjects {
        sortsObjects := false;
      }
    }

    // accessing keys

    /**
     The key at a position of the key order, None when the position is past the last key
     (the out-of-range error); that position is the key's only one.
     */
    function KeyAtIndex(index: nat): (r: Option<K>)
      reads this
      requires Valid()
      ensures r.None? <==> index >= KeyCount()
      ensures r.Some? ==> r.value in dictionary && r.value == AllKeys()[index]
      ensures r.Some? ==> forall j :: 0 <= j < |orderedKeys| && orderedKeys[j] == r.value ==> j == index
    {
      if index < |orderedKeys| then Some(orderedKeys[index]) else None
    }

    /** The ordered set of keys: every key once, exactly the keys of the dictionary. */
    function AllKeys(): (r: seq<K>)
      reads this
      requires Valid()
      ensures Distinct(r)
      ensures forall k :: k in r <==> k in dictionary
      ensures |r| == KeyCount()
    {
      orderedKeys
    }

    /** The number of distinct keys: the size of the ordered set and of the dictionary. */
    function KeyCount(): (n: nat)
      reads this
      requires Valid()
      ensures n == |dictionary.Keys|
      ensures n == |orderedKeys|
    {
      KeyCountIsNumberOfKeys(Contents());
      |orderedKeys|
    }

    // accessing objects

    /** The key's list, None (nil) for a key the dictionary does not hold. */
    function AllObjectsForKey(key: K): (r: Option<seq<V>>)
      reads this
      requires Valid()
      ensures r.None? <==> key !in orderedKeys
      ensures r.Some? ==> r.value == dictionary[key]
    {
      if key in dictionary then Some(dictionary[key]) else None
    }

    /** The object at a position of the key's list, None (nil) when the key or the position does not exist. */
    function ObjectForKey(key: K, index: nat): (r: Option<V>)
      reads this
      requires Valid()
      ensures r.Some? <==> AllObjectsForKey(key).Some? && index < |AllObjectsForKey(key).value|
      ensures r.Some? ==> r.value == AllObjectsForKey(key).value[index]
    {
      if key in dictionary && index < |dictionary[key]| then Some(dictionary[key][index]) else None
    }

    /** The object at a position of the list of the key at a key position; None (nil) if either position does not exist. */
    function ObjectForKeyAtIndex(keyIndex: nat, objIndex: nat): (r: Option<V>)
      reads this
      requires Valid()
      ensures r == if keyIndex < KeyCount() then ObjectForKey(KeyAtIndex(keyIndex).value, objIndex) else None
      ensures r.Some? <==> keyIndex < KeyCount() && objIndex < |dictionary[orderedKeys[keyIndex]]|
    {
      if keyIndex < |orderedKeys| && objIndex < |dictionary[orderedKeys[keyIndex]]|
      then Some(dictionary[orderedKeys[keyIndex]][objIndex])
      else None
    }

    /** The number of objects: the total length of all lists of the dictionary. */
    method Count() returns (n: nat)
      requires Valid()
      ensures n == Size(Contents())
    {
      n := 0;
      var i := 0;
      while i < |orderedKeys|
        invariant i <= |orderedKeys|
        invariant n == SizeOf(orderedKeys[..i], dictionary)
      {
        assert orderedKeys[..i + 1][..i] == orderedKeys[..i];
        n := n + |dictionary[orderedKeys[i]]|;
        i := i + 1;
      }
      assert orderedKeys[..i] == orderedKeys;
    }

    // adding objects

    /**
     Adds the object under the key, placing a new key and the object by the orderings in
     force. The key is then present, the count grows by one, and lawful orderings keep
     the array in order.
     */
    method AddObject(obj: V, key: K)
      requires Valid()
      modifies this`orderedKeys, this`dictionary
      ensures Valid()
      ensures Contents() == Add(old(Contents()), old(KeyOrdering()), old(ObjectOrdering()), obj, key)
      ensures key in orderedKeys && obj in dictionary[key]
      ensures |orderedKeys| == old(|orderedKeys|) + (if old(key in dictionary) then 0 else 1)
      ensures old(key in dictionary) ==> orderedKeys == old(orderedKeys)
      ensures forall k :: k in old(dictionary) && k != key ==> dictionary[k] == old(dictionary[k])
      ensures Size(Contents()) == old(Size(Contents())) + 1
      ensures Lawful(old(KeyOrdering()), old(ObjectOrdering())) && old(InOrder()) ==> Ordered(Contents(), old(KeyOrdering()), old(ObjectOrdering()))
    {
      ghost var wasInOrder := InOrder();
      var keyOrder, objectOrder := KeyOrdering(), ObjectOrdering();
      var r := Add(Contents(), keyOrder, objectOrder, obj, key);
      AddFacts(Contents(), keyOrder, objectOrder, obj, key, wasInOrder);
      orderedKeys, dictionary := r.keys, r.groups;
      assert Contents() == r;
    }

    // removing objects

    /**
     Removes every occurrence of the object from the key's list and nothing else; the
     count drops by the number of occurrences. The key stays, even with an empty list.
     */
    method RemoveObject(obj: V, key: K)
      requires Valid()
      modifies this`dictionary
      ensures Valid()
      ensures Contents() == Remove(old(Contents()), obj, key)
      ensures dictionary.Keys == old(dictionary.Keys)
      ensures key in dictionary ==> obj !in dictionary[key]
      ensures forall k :: k in old(dictionary) && k != key ==> dictionary[k] == old(dictionary[k])
      ensures Size(Contents()) == old(Size(Contents())) - multiset(old(GroupIn(dictionary, key)))[obj]
      ensures old(InOrder()) ==> InOrder()
    {
      ghost var t := Contents();
      if key in dictionary {
        dictionary := dictionary[key := RemoveAll(dictionary[key], obj)];
      }
      assert Valid() && Size(Contents()) == Size(t) - multiset(GroupIn(t.groups, key))[obj] by {
        RemoveShrinksSizeByOccurrences(t, obj, key);
      }
      assert Ordered(t, KeyOrdering(), ObjectOrdering()) ==> InOrder() by {
        if Ordered(t, KeyOrdering(), ObjectOrdering()) {
          RemoveKeepsOrdered(t, KeyOrdering(), ObjectOrdering(), obj, key);
        }
      }
    }

    // NSCopying

    /** A new array with the same hooks and flags, the same key order and the same lists. */
    constructor Copy(from: PZIndexedArray<K, V>)
      requires from.Valid()
      ensures Valid()
      ensures Contents() == from.Contents()
      ensures keySortSelector == from.keySortSelector && objectSortSelector == from.objectSortSelector
      ensures keySortComparator == from.keySortComparator && objectSortComparator == from.objectSortComparator
      ensures sortsKeys == from.sortsKeys && sortsObjects == from.sortsObjects
      ensures usesComparatorForKeys == from.usesComparatorForKeys && usesComparatorForObjects == from.usesComparatorForObjects
      ensures KeyOrdering() == from.KeyOrdering() && ObjectOrdering() == from.ObjectOrdering()
      ensures HooksSelected() == from.HooksSelected() && InOrder() == from.InOrder()
    {
      dictionary, orderedKeys := from.dictionary, from.orderedKeys;
      keySortSelector, objectSortSelector := from.keySortSelector, from.objectSortSelector;
      keySortComparator, objectSortComparator := from.keySortComparator, from.objectSortComparator;
      sortsKeys, sortsObjects := from.sortsKeys, from.sortsObjects;
      usesComparatorForKeys, usesComparatorForObjects := from.usesComparatorForKeys, from.usesComparatorForObjects;
    }
  }

  /** Mutating a copy, by adding and then removing, leaves the original as it was at copy time. */
  method MutateCopy<K(==,!new), V(==,!new)>(a: PZIndexedArray<K, V>, added: V, removed: V, key: K) returns (c: PZIndexedArray<K, V>)
    requires a.Valid()
    ensures fresh(c) && c.Valid()
    ensures c.Contents() == Remove(Add(old(a.Contents()), old(a.KeyOrdering()), old(a.ObjectOrdering()), added, key), removed, key)
    ensures unchanged(a)
  {
    ghost var t, keyOrder, objectOrder := a.Contents(), a.KeyOrdering(), a.ObjectOrdering();
    c := new PZIndexedArray.Copy(a);
    assert c != a;
    assert c.Contents() == t && c.KeyOrdering() == keyOrder && c.ObjectOrdering() == objectOrder;
    c.AddObject(added, key);
    ghost var added' := c.Contents();
    assert added' == Add(t, keyOrder, objectOrder, added, key);
    c.RemoveObject(removed, key);
    assert c.Contents() == Remove(added', removed, key);
  }
}
