/**
 The value held by an ordered multimap: the ordered set of keys and, for every key,
 its ordered list of objects. Both container classes keep exactly this pair of
 structures, and their mutators are specified by the functions of this module.
 */
module Groups {
  import opened Wrappers
  import opened Ordering

  /** `keys` fixes the key index order; `groups` maps each key to its list of objects. */
  datatype Table<K, V> = Table(keys: seq<K>, groups: map<K, seq<V>>)

  function Empty<K, V>(): Table<K, V> {
    Table([], map[])
  }

  /**
   The structural invariant: every key is listed once, and the listed keys are
   exactly the keys of the map (a one-to-one correspondence).
   */
  ghost predicate Wf<K(!new), V>(t: Table<K, V>) {
    && Distinct(t.keys)
    && (forall k :: k in t.keys <==> k in t.groups)
  }

  /** The list stored for `k`, empty when `k` has none. */
  function GroupIn<K, V>(m: map<K, seq<V>>, k: K): seq<V> {
    if k in m then m[k] else []
  }

  /** The sum of the list lengths of the keys `ks`. */
  function SizeOf<K, V>(ks: seq<K>, m: map<K, seq<V>>): nat {
    if ks == [] then 0 else SizeOf(ks[..|ks| - 1], m) + |GroupIn(m, ks[|ks| - 1])|
  }

  /** The number of objects in the multimap: the sum over all keys of their list lengths. */
  function Size<K, V>(t: Table<K, V>): nat {
    SizeOf(t.keys, t.groups)
  }

  /** Every hook that is set is a total preorder. */
  ghost predicate Lawful<K(!new), V(!new)>(keyOrder: Option<Comparator<K>>, objectOrder: Option<Comparator<V>>) {
    && (keyOrder.Some? ==> TotalPreorder(keyOrder.value))
    && (objectOrder.Some? ==> TotalPreorder(objectOrder.value))
  }

  /** The keys are sorted under the key hook and every list under the object hook, when set. */
  ghost predicate Ordered<K, V>(t: Table<K, V>, keyOrder: Option<Comparator<K>>, objectOrder: Option<Comparator<V>>) {
    && (keyOrder.Some? ==> Sorted(keyOrder.value, t.keys))
    && (objectOrder.Some? ==> forall k :: k in t.groups ==> Sorted(objectOrder.value, t.groups[k]))
  }

  /**
   addObject:forKey: — a new key is created and placed by the key hook; the object is
   placed in the key's list by the object hook. No other list changes.
   */
  function Add<K(!new), V(!new)>(t: Table<K, V>, keyOrder: Option<Comparator<K>>, objectOrder: Option<Comparator<V>>, obj: V, key: K): (r: Table<K, V>)
    ensures r.groups.Keys == t.groups.Keys + {key}
    ensures obj in r.groups[key]
    ensures |r.groups[key]| == |GroupIn(t.groups, key)| + 1
    ensures forall k :: k in t.groups && k != key ==> r.groups[k] == t.groups[k]
    ensures key in t.groups ==> r.keys == t.keys
  {
    Table(if key in t.groups then t.keys else Insert(keyOrder, t.keys, key),
          t.groups[key := Insert(objectOrder, GroupIn(t.groups, key), obj)])
  }

  /**
   removeObject:forKey: — every occurrence of the object leaves the key's list; the key
   itself stays, even when its list becomes empty. An absent key is a no-op.
   */
  function Remove<K(!new), V(==,!new)>(t: Table<K, V>, obj: V, key: K): (r: Table<K, V>)
    ensures r.keys == t.keys && r.groups.Keys == t.groups.Keys
    ensures obj !in GroupIn(r.groups, key)
    ensures forall k :: k in t.groups && k != key ==> r.groups[k] == t.groups[k]
    ensures forall v :: v != obj ==> multiset(GroupIn(r.groups, key))[v] == multiset(GroupIn(t.groups, key))[v]
  {
    if key in t.groups then Table(t.keys, t.groups[key := RemoveAll(t.groups[key], obj)]) else t
  }

  lemma {:induction false} SizeOfConcat<K, V>(a: seq<K>, b: seq<K>, m: map<K, seq<V>>)
    ensures SizeOf(a + b, m) == SizeOf(a, m) + SizeOf(b, m)
  {
    if b == [] {
      assert a + b == a;
    } else {
      var b' := b[..|b| - 1];
      assert (a + b)[..|a + b| - 1] == a + b';
      SizeOfConcat(a, b', m);
    }
  }

  lemma {:induction false} SizeOfUpdateOutside<K, V>(ks: seq<K>, m: map<K, seq<V>>, k: K, g: seq<V>)
    requires k !in ks
    ensures SizeOf(ks, m[k := g]) == SizeOf(ks, m)
  {
    if ks != [] {
      SizeOfUpdateOutside(ks[..|ks| - 1], m, k, g);
    }
  }

  lemma {:induction false} SizeOfUpdateInside<K(!new), V>(ks: seq<K>, m: map<K, seq<V>>, k: K, g: seq<V>)
    requires Distinct(ks) && k in ks
    ensures SizeOf(ks, m[k := g]) == SizeOf(ks, m) - |GroupIn(m, k)| + |g|
  {
    var front := ks[..|ks| - 1];
    assert Distinct(front);
    if ks[|ks| - 1] == k {
      assert k !in front;
      SizeOfUpdateOutside(front, m, k, g);
    } else {
      assert k in front;
      SizeOfUpdateInside(front, m, k, g);
    }
  }

  /** addObject:forKey: keeps the structural invariant and creates the key exactly when it is new. */
  lemma AddKeepsWf<K(!new), V(!new)>(t: Table<K, V>, keyOrder: Option<Comparator<K>>, objectOrder: Option<Comparator<V>>, obj: V, key: K)
    requires Wf(t)
    ensures Wf(Add(t, keyOrder, objectOrder, obj, key))
    ensures |Add(t, keyOrder, objectOrder, obj, key).keys| == |t.keys| + (if key in t.groups then 0 else 1)
  {
    if key !in t.groups {
      InsertKeepsDistinct(keyOrder, t.keys, key);
      InsertMembership(keyOrder, t.keys, key);
    }
  }

  /** Listing a new key at any position adds the length of its list to the size. */
  lemma {:induction false} SizeOfInsertAt<K(!new), V>(ks: seq<K>, p: nat, m: map<K, seq<V>>, k: K, g: seq<V>)
    requires p <= |ks| && k !in ks
    ensures SizeOf(ks[..p] + [k] + ks[p..], m[k := g]) == SizeOf(ks, m) + |g|
  {
    var front, back, m' := ks[..p], ks[p..], m[k := g];
    assert k !in front && k !in back by {
      assert forall y :: y in front ==> y in ks;
      assert forall y :: y in back ==> y in ks;
    }
    assert SizeOf(front + [k] + back, m') == SizeOf(front + [k], m') + SizeOf(back, m') by {
      SizeOfConcat(front + [k], back, m');
    }
    assert SizeOf(front + [k], m') == SizeOf(front, m') + |g| by {
      assert (front + [k])[..|front + [k]| - 1] == front;
    }
    assert SizeOf(ks, m) == SizeOf(front, m) + SizeOf(back, m) by {
      assert ks == front + back;
      SizeOfConcat(front, back, m);
    }
    SizeOfUpdateOutside(front, m, k, g);
    SizeOfUpdateOutside(back, m, k, g);
  }

  /** addObject:forKey: grows the count by exactly one, on a new key or an existing one. */
  lemma AddGrowsSizeByOne<K(!new), V(!new)>(t: Table<K, V>, keyOrder: Option<Comparator<K>>, objectOrder: Option<Comparator<V>>, obj: V, key: K)
    requires Wf(t)
    ensures Size(Add(t, keyOrder, objectOrder, obj, key)) == Size(t) + 1
  {
    if key in t.groups {
      assert Distinct(t.keys) && key in t.keys;
      AddSizeExisting(t, keyOrder, objectOrder, obj, key);
    } else {
      assert key !in t.keys;
      AddSizeNew(t, keyOrder, objectOrder, obj, key);
    }
  }

  lemma AddSizeExisting<K(!new), V(!new)>(t: Table<K, V>, keyOrder: Option<Comparator<K>>, objectOrder: Option<Comparator<V>>, obj: V, key: K)
    requires key in t.groups && key in t.keys && Distinct(t.keys)
    ensures Size(Add(t, keyOrder, objectOrder, obj, key)) == Size(t) + 1
  {
    var g := Insert(objectOrder, t.groups[key], obj);
    assert Add(t, keyOrder, objectOrder, obj, key) == Table(t.keys, t.groups[key := g]);
    SizeOfUpdateInside(t.keys, t.groups, key, g);
  }

  lemma AddSizeNew<K(!new), V(!new)>(t: Table<K, V>, keyOrder: Option<Comparator<K>>, objectOrder: Option<Comparator<V>>, obj: V, key: K)
    requires key !in t.groups && key !in t.keys
    ensures Size(Add(t, keyOrder, objectOrder, obj, key)) == Size(t) + 1
  {
    var g := Insert(objectOrder, [], obj);
    var p := InsertionPoint(keyOrder, t.keys, key);
    InsertAtSplits(t.keys, p, key);
    assert Add(t, keyOrder, objectOrder, obj, key) == Table(t.keys[..p] + [key] + t.keys[p..], t.groups[key := g]);
    SizeOfInsertAt(t.keys, p, t.groups, key, g);
  }

  /**
   With lawful hooks, addObject:forKey: keeps the keys sorted under the key hook and
   every list sorted under the object hook.
   */
  lemma AddKeepsOrdered<K(!new), V(!new)>(t: Table<K, V>, keyOrder: Option<Comparator<K>>, objectOrder: Option<Comparator<V>>, obj: V, key: K)
    ensures Lawful(keyOrder, objectOrder) && Ordered(t, keyOrder, objectOrder) ==>
            Ordered(Add(t, keyOrder, objectOrder, obj, key), keyOrder, objectOrder)
  {
    if Lawful(keyOrder, objectOrder) && Ordered(t, keyOrder, objectOrder) {
      AddKeepsOrderedStep(t, keyOrder, objectOrder, obj, key);
    }
  }

  /** What one insertion keeps and changes: well-formed, one more key exactly for a new key, one more object, and (when the table was in order under lawful orderings) order. */
  lemma AddFacts<K(!new), V(!new)>(t: Table<K, V>, keyOrder: Option<Comparator<K>>, objectOrder: Option<Comparator<V>>, obj: V, key: K, inOrder: bool)
    requires Wf(t) && (inOrder ==> Ordered(t, keyOrder, objectOrder))
    ensures Wf(Add(t, keyOrder, objectOrder, obj, key))
    ensures |Add(t, keyOrder, objectOrder, obj, key).keys| == |t.keys| + (if key in t.groups then 0 else 1)
    ensures Size(Add(t, keyOrder, objectOrder, obj, key)) == Size(t) + 1
    ensures Lawful(keyOrder, objectOrder) && inOrder ==> Ordered(Add(t, keyOrder, objectOrder, obj, key), keyOrder, objectOrder)
  {
    AddKeepsWf(t, keyOrder, objectOrder, obj, key);
    AddGrowsSizeByOne(t, keyOrder, objectOrder, obj, key);
    if inOrder {
      AddKeepsOrdered(t, keyOrder, objectOrder, obj, key);
    }
  }

  lemma AddKeepsOrderedStep<K(!new), V(!new)>(t: Table<K, V>, keyOrder: Option<Comparator<K>>, objectOrder: Option<Comparator<V>>, obj: V, key: K)
    requires Lawful(keyOrder, objectOrder) && Ordered(t, keyOrder, objectOrder)
    ensures Ordered(Add(t, keyOrder, objectOrder, obj, key), keyOrder, objectOrder)
  {
    var r := Add(t, keyOrder, objectOrder, obj, key);
    if keyOrder.Some? && key !in t.groups {
      InsertKeepsSorted(keyOrder.value, t.keys, key);
    }
    if objectOrder.Some? {
      InsertKeepsSorted(objectOrder.value, GroupIn(t.groups, key), obj);
    }
  }

  /** removeObject:forKey: keeps the invariant and lowers the count by the number of occurrences removed. */
  lemma RemoveShrinksSizeByOccurrences<K(!new), V(!new)>(t: Table<K, V>, obj: V, key: K)
    requires Wf(t)
    ensures Wf(Remove(t, obj, key))
    ensures Size(Remove(t, obj, key)) == Size(t) - multiset(GroupIn(t.groups, key))[obj]
  {
    if key in t.groups {
      SizeOfUpdateInside(t.keys, t.groups, key, RemoveAll(t.groups[key], obj));
    }
  }

  /** removeObject:forKey: keeps every sorted list sorted and does not touch the key order. */
  lemma RemoveKeepsOrdered<K(!new), V(!new)>(t: Table<K, V>, keyOrder: Option<Comparator<K>>, objectOrder: Option<Comparator<V>>, obj: V, key: K)
    requires Ordered(t, keyOrder, objectOrder)
    ensures Ordered(Remove(t, obj, key), keyOrder, objectOrder)
  {
    if objectOrder.Some? && key in t.groups {
      RemoveAllKeepsSorted(objectOrder.value, t.groups[key], obj);
    }
  }

  /** Removing an obj that the key's list does not hold changes nothing. */
  lemma RemoveAbsentObjectIsNoOp<K(!new), V(!new)>(t: Table<K, V>, obj: V, key: K)
    requires obj !in GroupIn(t.groups, key)
    ensures Remove(t, obj, key) == t
  {
    if key in t.groups {
      RemoveAbsentIsIdentity(t.groups[key], obj);
      assert t.groups[key := t.groups[key]] == t.groups;
    }
  }

  // ---------------------------------------------------------------------------
  // Sequences of insertions

  /** The table after adding the (obj, key) pairs one after the other. */
  function AddAll<K(!new), V(!new)>(t: Table<K, V>, keyOrder: Option<Comparator<K>>, objectOrder: Option<Comparator<V>>, pairs: seq<(V, K)>): Table<K, V> {
    if pairs == [] then t
    else
      var last := pairs[|pairs| - 1];
      Add(AddAll(t, keyOrder, objectOrder, pairs[..|pairs| - 1]), keyOrder, objectOrder, last.0, last.1)
  }

  /** The keys named by the pairs, each once, in the order of their first appearance. */
  function FirstOccurrences<K(==), V>(pairs: seq<(V, K)>): seq<K> {
    if pairs == [] then []
    else
      var front := FirstOccurrences(pairs[..|pairs| - 1]);
      var k := pairs[|pairs| - 1].1;
      if k in front then front else front + [k]
  }

  /** The objects paired with `key`, in the order of the pairs. */
  function ObjectsFor<K(==), V>(pairs: seq<(V, K)>, key: K): seq<V> {
    if pairs == [] then []
    else
      var front := ObjectsFor(pairs[..|pairs| - 1], key);
      var last := pairs[|pairs| - 1];
      if last.1 == key then front + [last.0] else front
  }

  /** The set of keys named by the pairs. */
  ghost function KeysOf<K, V>(pairs: seq<(V, K)>): set<K> {
    set i | 0 <= i < |pairs| :: pairs[i].1
  }

  lemma KeysOfSnoc<K, V>(pairs: seq<(V, K)>)
    requires pairs != []
    ensures KeysOf(pairs) == KeysOf(pairs[..|pairs| - 1]) + {pairs[|pairs| - 1].1}
  {
    var front := pairs[..|pairs| - 1];
    forall k | k in KeysOf(pairs) ensures k in KeysOf(front) + {pairs[|pairs| - 1].1} {
      var i :| 0 <= i < |pairs| && pairs[i].1 == k;
      if i < |front| {
        assert front[i] == pairs[i];
      }
    }
    forall k | k in KeysOf(front) ensures k in KeysOf(pairs) {
      var i :| 0 <= i < |front| && front[i].1 == k;
      assert pairs[i] == front[i];
    }
  }

  /** Under the invariant the key count equals the number of keys of the map. */
  lemma KeyCountIsNumberOfKeys<K(!new), V>(t: Table<K, V>)
    requires Wf(t)
    ensures |t.keys| == |t.groups.Keys|
  {
    assert (set k | k in t.keys) == t.groups.Keys;
    DistinctCardinality(t.keys);
  }

  /**
   Count consistency: any sequence of insertions into an empty multimap keeps the
   invariant, creates exactly the keys it names, and the count is the number of insertions.
   */
  lemma {:induction false} AddAllKeysAndSize<K(!new), V(!new)>(keyOrder: Option<Comparator<K>>, objectOrder: Option<Comparator<V>>, pairs: seq<(V, K)>)
    ensures Wf(AddAll(Empty(), keyOrder, objectOrder, pairs))
    ensures AddAll(Empty(), keyOrder, objectOrder, pairs).groups.Keys == KeysOf(pairs)
    ensures Size(AddAll(Empty(), keyOrder, objectOrder, pairs)) == |pairs|
  {
    if pairs == [] {
      assert KeysOf(pairs) == {};
    } else {
      var front := pairs[..|pairs| - 1];
      var last := pairs[|pairs| - 1];
      var t' := AddAll(Empty<K, V>(), keyOrder, objectOrder, front);
      var t := Add(t', keyOrder, objectOrder, last.0, last.1);
      assert AddAll(Empty(), keyOrder, objectOrder, pairs) == t;
      AddAllKeysAndSize(keyOrder, objectOrder, front);
      assert Wf(t) by {
        AddKeepsWf(t', keyOrder, objectOrder, last.0, last.1);
      }
      assert Size(t) == |pairs| by {
        AddGrowsSizeByOne(t', keyOrder, objectOrder, last.0, last.1);
      }
      assert t.groups.Keys == KeysOf(pairs) by {
        KeysOfSnoc(pairs);
      }
    }
  }

  /**
   Uniqueness: after any sequence of insertions into an empty multimap, the key count
   is the number of distinct keys added, however many objects each key received.
   */
  lemma AddAllKeyCount<K(!new), V(!new)>(keyOrder: Option<Comparator<K>>, objectOrder: Option<Comparator<V>>, pairs: seq<(V, K)>)
    ensures |AddAll(Empty(), keyOrder, objectOrder, pairs).keys| == |KeysOf(pairs)|
  {
    AddAllKeysAndSize(keyOrder, objectOrder, pairs);
    KeyCountIsNumberOfKeys(AddAll(Empty(), keyOrder, objectOrder, pairs));
  }

  /**
   Insertion order: without hooks, the keys are in order of first insertion and every
   key's list holds its objects in the order they were added.
   */
  lemma {:induction false} AddAllKeepsInsertionOrder<K(!new), V(!new)>(pairs: seq<(V, K)>)
    ensures AddAll(Empty(), None, None, pairs).keys == FirstOccurrences(pairs)
    ensures forall k :: GroupIn(AddAll(Empty(), None, None, pairs).groups, k) == ObjectsFor(pairs, k)
  {
    if pairs != [] {
      var front := pairs[..|pairs| - 1];
      var last := pairs[|pairs| - 1];
      var t' := AddAll(Empty<K, V>(), None, None, front);
      assert AddAll(Empty(), None, None, pairs) == Add(t', None, None, last.0, last.1);
      AddAllKeepsInsertionOrder(front);
      AddAllKeysAndSize(None, None, front);
      InsertWithoutOrderAppends(t'.keys, last.1);
      InsertWithoutOrderAppends(GroupIn(t'.groups, last.1), last.0);
    }
  }

  /** Sorted mode: with lawful hooks, any sequence of insertions leaves the multimap ordered. */
  lemma {:induction false} AddAllIsOrdered<K(!new), V(!new)>(keyOrder: Option<Comparator<K>>, objectOrder: Option<Comparator<V>>, pairs: seq<(V, K)>)
    requires Lawful(keyOrder, objectOrder)
    ensures Ordered(AddAll(Empty(), keyOrder, objectOrder, pairs), keyOrder, objectOrder)
  {
    if pairs != [] {
      var front := pairs[..|pairs| - 1];
      var last := pairs[|pairs| - 1];
      AddAllIsOrdered(keyOrder, objectOrder, front);
      AddKeepsOrderedStep(AddAll(Empty(), keyOrder, objectOrder, front), keyOrder, objectOrder, last.0, last.1);
    }
  }

  /** Lookup correctness: every added pair can be found, its key listed and its object in the key's list. */
  lemma {:induction false} AddAllContainsEveryPair<K(!new), V(!new)>(keyOrder: Option<Comparator<K>>, objectOrder: Option<Comparator<V>>, pairs: seq<(V, K)>, i: nat)
    requires i < |pairs|
    ensures pairs[i].1 in AddAll(Empty(), keyOrder, objectOrder, pairs).keys
    ensures pairs[i].1 in AddAll(Empty(), keyOrder, objectOrder, pairs).groups
    ensures pairs[i].0 in AddAll(Empty(), keyOrder, objectOrder, pairs).groups[pairs[i].1]
  {
    var front := pairs[..|pairs| - 1];
    var last := pairs[|pairs| - 1];
    var t' := AddAll(Empty<K, V>(), keyOrder, objectOrder, front);
    var t := Add(t', keyOrder, objectOrder, last.0, last.1);
    assert AddAll(Empty(), keyOrder, objectOrder, pairs) == t;
    var k := pairs[i].1;
    assert k in t.groups && k in t.keys by {
      AddAllKeysAndSize(keyOrder, objectOrder, pairs);
      assert k in KeysOf(pairs);
    }
    if i < |front| {
      var v := pairs[i].0;
      assert v in t'.groups[k] by {
        assert front[i] == pairs[i];
        AddAllContainsEveryPair(keyOrder, objectOrder, front, i);
      }
      if k == last.1 {
        assert v in t.groups[k] by {
          InsertMembership(objectOrder, t'.groups[k], last.0);
        }
      }
    }
  }
}
