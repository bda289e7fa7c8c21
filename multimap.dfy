/**
 PZMultiMap: the comparator-only ordered multimap. Each key maps to an ordered list of
 objects; a separate ordered set of keys fixes the key index order. A key comparator
 and an object comparator, when set, are used when inserting.
 */
module MultiMap {
  import opened Wrappers
  import opened Ordering
  import opened Groups

  class PZMultiMap<K(==,!new), V(==,!new)> {
    /** The ordered set of keys. */
    var orderedKeys: seq<K>
    /** Each key's ordered list of objects. */
    var dictionary: map<K, seq<V>>
    /** Used to place a new key when it is inserted. */
    var keySortComparator: Option<Comparator<K>>
    /** Used to place a new object in its key's list when it is inserted. */
    var objectSortComparator: Option<Comparator<V>>

    /** The multimap's value: its key order and its lists. */
    function Contents(): Table<K, V>
      reads this`orderedKeys, this`dictionary
    {
      Table(orderedKeys, dictionary)
    }

    /** The structural invariant: the ordered set of keys is exactly the keys of the dictionary, each once. */
    ghost predicate Valid()
      reads this`orderedKeys, this`dictionary
    {
      Wf(Contents())
    }

    /** Keys sorted under the key comparator and every list under the object comparator, when set. */
    ghost predicate InOrder()
      reads this
    {
      Ordered(Contents(), keySortComparator, objectSortComparator)
    }

    ghost predicate LawfulComparators()
      reads this
    {
      Lawful(keySortComparator, objectSortComparator)
    }

    constructor ()
      ensures Valid() && InOrder()
      ensures Contents() == Empty()
      ensures keySortComparator == None && objectSortComparator == None
    {
      orderedKeys := [];
      dictionary := map[];
      keySortComparator := None;
      objectSortComparator := None;
    }

    /** keySortComparator's setter: the stored keys are not re-sorted. */
    method SetKeySortComparator(c: Option<Comparator<K>>)
      modifies this`keySortComparator
      ensures keySortComparator == c
    {
      keySortComparator := c;
    }

    /** objectSortComparator's setter: the stored lists are not re-sorted. */
    method SetObjectSortComparator(c: Option<Comparator<V>>)
      modifies this`objectSortComparator
      ensures objectSortComparator == c
    {
      objectSortComparator := c;
    }

    // accessing keys

    /**
     The key at a position of the key order, None when the position is past the last key
     (the out-of-range error); that position is the key's only one.
     */
    function KeyAtIndex(index: nat): (r: Option<K>)
      reads this
      requires Valid()
      ensures r.None? <==> index >= KeyCount()
      ensures r.Some? ==> r.value in dictionary && r.value == AllKeys()[index]
      ensures r.Some? ==> forall j :: 0 <= j < |orderedKeys| && orderedKeys[j] == r.value ==> j == index
    {
      if index < |orderedKeys| then Some(orderedKeys[index]) else None
    }

    /** The ordered set of keys: every key once, exactly the keys that hold a list. */
    function AllKeys(): (r: seq<K>)
      reads this
      requires Valid()
      ensures Distinct(r)
      ensures forall k :: k in r <==> k in dictionary
      ensures |r| == KeyCount()
    {
      orderedKeys
    }

    /** The number of distinct keys. */
    function KeyCount(): (n: nat)
      reads this
      requires Valid()
      ensures n == |dictionary.Keys|
      ensures n == |orderedKeys|
    {
      KeyCountIsNumberOfKeys(Contents());
      |orderedKeys|
    }

    /** The collection contains the key exactly when the key is in the ordered set of keys. */
    function HasKey(key: K): (b: bool)
      reads this
      requires Valid()
      ensures b <==> key in orderedKeys
    {
      key in dictionary
    }

    /** The key's position, None standing for NSNotFound when the collection lacks the key. */
    function IndexForKey(key: K): (r: Option<nat>)
      reads this
      requires Valid()
      ensures r.None? <==> !HasKey(key)
      ensures r.Some? ==> r.value < KeyCount() && KeyAtIndex(r.value) == Some(key)
    {
      IndexOf(orderedKeys, key)
    }

    // accessing objects

    /** The key's list, None (nil) when the key does not exist. */
    function AllObjectsForKey(key: K): (r: Option<seq<V>>)
      reads this
      requires Valid()
      ensures r.None? <==> !HasKey(key)
      ensures r.Some? ==> r.value == dictionary[key]
    {
      if key in dictionary then Some(dictionary[key]) else None
    }

    /** The object at a position of the key's list, None (nil) when the key or the position does not exist. */
    function ObjectForKey(key: K, index: nat): (r: Option<V>)
      reads this
      requires Valid()
      ensures r.Some? <==> AllObjectsForKey(key).Some? && index < |AllObjectsForKey(key).value|
      ensures r.Some? ==> r.value == AllObjectsForKey(key).value[index]
    {
      if key in dictionary && index < |dictionary[key]| then Some(dictionary[key][index]) else None
    }

    /** The object at a position of the list of the key at a key position; None (nil) if either position does not exist. */
    function ObjectForKeyAtIndex(keyIndex: nat, objIndex: nat): (r: Option<V>)
      reads this
      requires Valid()
      ensures r == if keyIndex < KeyCount() then ObjectForKey(KeyAtIndex(keyIndex).value, objIndex) else None
      ensures r.Some? <==> keyIndex < KeyCount() && objIndex < |dictionary[orderedKeys[keyIndex]]|
    {
      if keyIndex < |orderedKeys| && objIndex < |dictionary[orderedKeys[keyIndex]]|
      then Some(dictionary[orderedKeys[keyIndex]][objIndex])
      else None
    }

    /** The number of objects: the sum over the keys of their list lengths. */
    method Count() returns (n: nat)
      requires Valid()
      ensures n == Size(Contents())
    {
      n := 0;
      var i := 0;
      while i < |orderedKeys|
        invariant i <= |orderedKeys|
        invariant n == SizeOf(orderedKeys[..i], dictionary)
      {
        assert orderedKeys[..i + 1][..i] == orderedKeys[..i];
        n := n + |dictionary[orderedKeys[i]]|;
        i := i + 1;
      }
      assert orderedKeys[..i] == orderedKeys;
    }

    // adding objects

    /**
     Adds the object under the key, creating the key if it does not exist. The count grows
     by one; the key count grows by one exactly for a new key; lawful comparators keep
     the multimap in order.
     */
    method AddObject(obj: V, key: K)
      requires Valid()
      modifies this`orderedKeys, this`dictionary
      ensures Valid()
      ensures Contents() == Add(old(Contents()), keySortComparator, objectSortComparator, obj, key)
      ensures key in orderedKeys && obj in dictionary[key]
      ensures |orderedKeys| == old(|orderedKeys|) + (if old(key in dictionary) then 0 else 1)
      ensures old(key in dictionary) ==> orderedKeys == old(orderedKeys)
      ensures forall k :: k in old(dictionary) && k != key ==> dictionary[k] == old(dictionary[k])
      ensures Size(Contents()) == old(Size(Contents())) + 1
      ensures LawfulComparators() && old(InOrder()) ==> InOrder()
    {
      ghost var t := Contents();
      ghost var wasInOrder := InOrder();
      var r := Add(Contents(), keySortComparator, objectSortComparator, obj, key);
      orderedKeys, dictionary := r.keys, r.groups;
      assert Valid() && |orderedKeys| == |t.keys| + (if key in t.groups then 0 else 1) by {
        AddKeepsWf(t, keySortComparator, objectSortComparator, obj, key);
      }
      assert Size(Contents()) == Size(t) + 1 by {
        AddGrowsSizeByOne(t, keySortComparator, objectSortComparator, obj, key);
      }
      assert LawfulComparators() && wasInOrder ==> InOrder() by {
        AddKeepsOrdered(t, keySortComparator, objectSortComparator, obj, key);
      }
    }

    // removing objects

    /**
     Removes every occurrence of the object from the key's list and nothing else; the
     count drops by the number of occurrences. The key stays, even with an empty list.
     */
    method RemoveObject(obj: V, key: K)
      requires Valid()
      modifies this`dictionary
      ensures Valid()
      ensures Contents() == Remove(old(Contents()), obj, key)
      ensures dictionary.Keys == old(dictionary.Keys)
      ensures key in dictionary ==> obj !in dictionary[key]
      ensures forall k :: k in old(dictionary) && k != key ==> dictionary[k] == old(dictionary[k])
      ensures Size(Contents()) == old(Size(Contents())) - multiset(old(GroupIn(dictionary, key)))[obj]
      ensures old(InOrder()) ==> InOrder()
    {
      ghost var t := Contents();
      if key in dictionary {
        dictionary := dictionary[key := RemoveAll(dictionary[key], obj)];
      }
      assert Valid() && Size(Contents()) == Size(t) - multiset(GroupIn(t.groups, key))[obj] by {
        RemoveShrinksSizeByOccurrences(t, obj, key);
      }
      assert Ordered(t, keySortComparator, objectSortComparator) ==> InOrder() by {
        if Ordered(t, keySortComparator, objectSortComparator) {
          RemoveKeepsOrdered(t, keySortComparator, objectSortComparator, obj, key);
        }
      }
    }

    // NSCopying

    /** A new multimap with the same comparators, the same key order and the same lists. */
    constructor Copy(from: PZMultiMap<K, V>)
      requires from.Valid()
      ensures Valid()
      ensures Contents() == from.Contents()
      ensures keySortComparator == from.keySortComparator && objectSortComparator == from.objectSortComparator
    {
      orderedKeys, dictionary := from.orderedKeys, from.dictionary;
      keySortComparator, objectSortComparator := from.keySortComparator, from.objectSortComparator;
    }
  }

  /** Mutating a copy, by adding and then removing, leaves the original as it was at copy time. */
  method MutateCopy<K(==,!new), V(==,!new)>(m: PZMultiMap<K, V>, added: V, removed: V, key: K) returns (c: PZMultiMap<K, V>)
    requires m.Valid()
    ensures fresh(c) && c.Valid()
    ensures c.Contents() == Remove(Add(old(m.Contents()), old(m.keySortComparator), old(m.objectSortComparator), added, key), removed, key)
    ensures unchanged(m)
  {
    c := new PZMultiMap.Copy(m);
    assert c != m;
    c.AddObject(added, key);
    c.RemoveObject(removed, key);
  }
}
