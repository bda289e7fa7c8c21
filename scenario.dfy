/**
 A client of PZMultiMap: grouping numbers under two category keys with an ascending
 object comparator and no key comparator. Keys 'a' then 'b' receive 5, 3 and 1 in
 that order; the keys keep their first-insertion order and the list of 'a' is sorted.
 */
module Scenario {
  import opened Wrappers
  import opened Ordering
  import opened Groups
  import opened MultiMap

  /** The usual ascending comparison of integers. */
  function IntAscending(a: int, b: int): Ord {
    if a < b then Ascending else if a == b then Same else Descending
  }

  lemma InsertIntoEmpty(x: int)
    ensures Insert(Some(IntAscending), [], x) == [x]
  {
    var none: seq<int> := [];
    assert FirstAfter(IntAscending, none, x) == 0;
    assert none[..0] == [] && none[0..] == [];
  }

  /** Adding 5 under 'a' to the empty multimap creates 'a'. */
  lemma FirstInsertion()
    ensures Add(Empty(), None, Some(IntAscending), 5, 'a') == Table(['a'], map['a' := [5]])
  {
    var r := Add(Empty(), None, Some(IntAscending), 5, 'a');
    assert r.keys == ['a'] by {
      InsertWithoutOrderAppends([], 'a');
    }
    assert r.groups == map['a' := [5]] by {
      InsertIntoEmpty(5);
    }
  }

  /** Adding 3 under 'b' appends the new key 'b' after 'a'. */
  lemma SecondInsertion()
    ensures Add(Table(['a'], map['a' := [5]]), None, Some(IntAscending), 3, 'b')
         == Table(['a', 'b'], map['a' := [5], 'b' := [3]])
  {
    var t := Table(['a'], map['a' := [5]]);
    assert 'b' !in t.groups;
    assert GroupIn(t.groups, 'b') == [];
    InsertIntoEmpty(3);
    InsertWithoutOrderAppends(['a'], 'b');
    assert Add(t, None, Some(IntAscending), 3, 'b') == Table(['a'] + ['b'], t.groups['b' := [3]]);
    assert t.groups['b' := [3]] == map['a' := [5], 'b' := [3]];
  }

  /** Adding 1 under 'a' places it before 5: the comparator is used on insertion. */
  lemma ThirdInsertion()
    ensures Add(Table(['a', 'b'], map['a' := [5], 'b' := [3]]), None, Some(IntAscending), 1, 'a')
         == Table(['a', 'b'], map['a' := [1, 5], 'b' := [3]])
  {
    var t := Table(['a', 'b'], map['a' := [5], 'b' := [3]]);
    var r := Add(t, None, Some(IntAscending), 1, 'a');
    assert r.keys == t.keys;
    assert r.groups == map['a' := [1, 5], 'b' := [3]] by {
      var five: seq<int> := [5];
      assert FirstAfter(IntAscending, five, 1) == 0;
      assert five[..0] == [] && five[0..] == five;
      assert Insert(Some(IntAscending), five, 1) == [1, 5];
    }
  }

  lemma FinalCount()
    ensures Size(Table(['a', 'b'], map['a' := [1, 5], 'b' := [3]])) == 3
  {
    var t := Table(['a', 'b'], map['a' := [1, 5], 'b' := [3]]);
    assert t.keys[..1] == ['a'];
    assert SizeOf(['a'], t.groups) == 2;
  }

  /** The grouping as a sequence of (object, key) insertions. */
  function Insertions(): seq<(int, char)> {
    [(5, 'a'), (3, 'b'), (1, 'a')]
  }

  /** The grouping after the three insertions, with the ascending object comparator and no key comparator. */
  lemma GroupingContents()
    ensures AddAll(Empty(), None, Some(IntAscending), Insertions()) == Table(['a', 'b'], map['a' := [1, 5], 'b' := [3]])
  {
    var p := Insertions();
    assert AddAll(Empty(), None, Some(IntAscending), p[..1]) == Table(['a'], map['a' := [5]]) by {
      assert p[..1][..0] == [] && p[..1][0] == (5, 'a');
      FirstInsertion();
    }
    assert AddAll(Empty(), None, Some(IntAscending), p[..2]) == Table(['a', 'b'], map['a' := [5], 'b' := [3]]) by {
      assert p[..2][..1] == p[..1] && p[..2][1] == (3, 'b');
      SecondInsertion();
    }
    assert p[..2] == p[..|p| - 1] && p[2] == (1, 'a');
    ThirdInsertion();
  }

  /** A client loop: add the (object, key) pairs one after the other. */
  method AddEach<K(==,!new), V(==,!new)>(m: PZMultiMap<K, V>, pairs: seq<(V, K)>)
    requires m.Valid()
    modifies m`orderedKeys, m`dictionary
    ensures m.Valid()
    ensures m.Contents() == AddAll(old(m.Contents()), m.keySortComparator, m.objectSortComparator, pairs)
  {
    for i := 0 to |pairs|
      invariant m.Valid()
      invariant m.Contents() == AddAll(old(m.Contents()), m.keySortComparator, m.objectSortComparator, pairs[..i])
    {
      assert pairs[..i + 1][..i] == pairs[..i];
      m.AddObject(pairs[i].0, pairs[i].1);
    }
    assert pairs[..|pairs|] == pairs;
  }

  /** The client inserts the grouping into a new multimap with an ascending object comparator. */
  method BuildGrouping() returns (m: PZMultiMap<char, int>)
    ensures fresh(m) && m.Valid()
    ensures m.Contents() == AddAll(Empty(), None, Some(IntAscending), Insertions())
  {
    m := new PZMultiMap<char, int>();
    m.SetObjectSortComparator(Some(IntAscending));
    assert m.Valid() && m.Contents() == Empty();
    assert m.keySortComparator == None && m.objectSortComparator == Some(IntAscending);
    AddEach(m, Insertions());
  }

  /**
   Reading the grouping back: the keys keep their first-insertion order, the list of 'a'
   is sorted, 'b' is at index 1, and the count is 3.
   */
  method ReadGrouping(m: PZMultiMap<char, int>) returns (n: nat)
    requires m.Valid()
    requires m.Contents() == AddAll(Empty(), None, Some(IntAscending), Insertions())
    ensures m.AllKeys() == ['a', 'b']
    ensures m.AllObjectsForKey('a') == Some([1, 5])
    ensures m.ObjectForKey('a', 0) == Some(1)
    ensures m.IndexForKey('b') == Some(1)
    ensures n == 3
  {
    GroupingContents();
    assert IndexOf(['b'], 'b') == Some(0);
    assert ['a', 'b'][1..] == ['b'];
    FinalCount();
    n := m.Count();
  }

  /** The scenario end to end: build the grouping, then read it back. */
  method GroupingScenario() {
    var m := BuildGrouping();
    var n := ReadGrouping(m);
    assert n == 3;
  }
}
