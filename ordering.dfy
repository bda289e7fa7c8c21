/**
 Ordering hooks and the sequence operations that the containers perform with them:
 sorted insertion, removal of every occurrence of a value, and index lookup.
 */
module Ordering {
  import opened Wrappers

  /** The three answers of an Objective-C comparison (NSComparisonResult). */
  datatype Ord = Ascending | Same | Descending

  /** A comparator block or a comparison selector, seen as a function of two elements. */
  type Comparator<!T> = (T, T) -> Ord

  /** `a` may stand before `b`: the comparator does not say that `a` sorts after `b`. */
  predicate Le<T>(c: Comparator<T>, a: T, b: T) {
    c(a, b) != Descending
  }

  /** `a` may stand before `b` and `b` before `d`. */
  predicate Chain<T>(c: Comparator<T>, a: T, b: T, d: T) {
    Le(c, a, b) && Le(c, b, d)
  }

  /**
   The comparator is total and transitive, so that "may stand before" is a total preorder.
   Transitivity is instantiated only where a proof names a Chain, so it cannot feed on itself.
   */
  ghost predicate TotalPreorder<T(!new)>(c: Comparator<T>) {
    && (forall a, b :: Le(c, a, b) || Le(c, b, a))
    && (forall a, b, d {:trigger Chain(c, a, b, d)} :: Chain(c, a, b, d) ==> Le(c, a, d))
  }

  /** Non-decreasing under the comparator. */
  ghost predicate Sorted<T>(c: Comparator<T>, s: seq<T>) {
    forall i, j :: 0 <= i < j < |s| ==> Le(c, s[i], s[j])
  }

  /** No element occurs twice (what an ordered set guarantees). */
  ghost predicate Distinct<T>(s: seq<T>) {
    forall i, j :: 0 <= i < j < |s| ==> s[i] != s[j]
  }

  /** The first position from `from` on whose element sorts strictly after `x`; |s| when there is none. */
  function FirstAfterFrom<T>(c: Comparator<T>, s: seq<T>, x: T, from: nat): (p: nat)
    requires from <= |s|
    ensures from <= p <= |s|
    ensures forall i :: from <= i < p ==> Le(c, s[i], x)
    ensures p < |s| ==> !Le(c, s[p], x)
    decreases |s| - from
  {
    if from == |s| || !Le(c, s[from], x) then from else FirstAfterFrom(c, s, x, from + 1)
  }

  /** The first position whose element sorts strictly after `x`; |s| when there is none. */
  function FirstAfter<T>(c: Comparator<T>, s: seq<T>, x: T): (p: nat)
    ensures p <= |s|
    ensures forall i :: 0 <= i < p ==> Le(c, s[i], x)
    ensures p < |s| ==> !Le(c, s[p], x)
  {
    FirstAfterFrom(c, s, x, 0)
  }

  /**
   Where a new element goes: at the end without an ordering hook (insertion order),
   otherwise after every element that does not sort after it.
   */
  function InsertionPoint<T>(order: Option<Comparator<T>>, s: seq<T>, x: T): (p: nat)
    ensures p <= |s|
    ensures order.None? ==> p == |s|
    ensures order.Some? ==> forall i :: 0 <= i < p ==> Le(order.value, s[i], x)
    ensures order.Some? && p < |s| ==> !Le(order.value, s[p], x)
  {
    match order
    case None => |s|
    case Some(c) => FirstAfter(c, s, x)
  }

  /** The sequence with `x` inserted before position `p`. */
  function InsertAt<T>(s: seq<T>, p: nat, x: T): (r: seq<T>)
    requires p <= |s|
    ensures |r| == |s| + 1
    ensures x in r
    decreases |s|
  {
    if p == |s| then s + [x] else InsertAt(s[..|s| - 1], p, x) + [s[|s| - 1]]
  }

  /** Inserting before `p` puts `x` between the first `p` elements and the rest. */
  lemma {:induction false} InsertAtSplits<T>(s: seq<T>, p: nat, x: T)
    requires p <= |s|
    ensures InsertAt(s, p, x) == s[..p] + [x] + s[p..]
    decreases |s|
  {
    if p == |s| {
      assert s[..p] == s && s[p..] == [];
    } else {
      var front := s[..|s| - 1];
      InsertAtSplits(front, p, x);
      assert front[..p] == s[..p];
      assert front[p..] + [s[|s| - 1]] == s[p..];
    }
  }

  /** The sequence with `x` inserted at its insertion point. */
  function Insert<T>(order: Option<Comparator<T>>, s: seq<T>, x: T): (r: seq<T>)
    ensures |r| == |s| + 1
    ensures x in r
  {
    InsertAt(s, InsertionPoint(order, s, x), x)
  }

  /** Without an ordering hook the new element is appended: insertion order is kept. */
  lemma InsertWithoutOrderAppends<T>(s: seq<T>, x: T)
    ensures Insert(None, s, x) == s + [x]
  {
  }

  /** Insertion adds exactly one occurrence of `x` and keeps every other element. */
  lemma InsertIsPermutation<T>(order: Option<Comparator<T>>, s: seq<T>, x: T)
    ensures multiset(Insert(order, s, x)) == multiset(s) + multiset{x}
  {
    var p := InsertionPoint(order, s, x);
    InsertAtSplits(s, p, x);
    assert s == s[..p] + s[p..];
  }

  lemma InsertMembership<T>(order: Option<Comparator<T>>, s: seq<T>, x: T)
    ensures forall y :: y in Insert(order, s, x) <==> y == x || y in s
  {
    InsertIsPermutation(order, s, x);
    forall y ensures y in Insert(order, s, x) <==> y == x || y in s {
      assert y in Insert(order, s, x) <==> y in multiset(Insert(order, s, x));
      assert y in s <==> y in multiset(s);
    }
  }

  /** Inserting an element that is not yet present keeps the elements distinct. */
  lemma InsertKeepsDistinct<T>(order: Option<Comparator<T>>, s: seq<T>, x: T)
    requires Distinct(s) && x !in s
    ensures Distinct(Insert(order, s, x))
  {
    var p := InsertionPoint(order, s, x);
    var r := Insert(order, s, x);
    InsertAtSplits(s, p, x);
    forall i, j | 0 <= i < j < |r| ensures r[i] != r[j] {
      if i == p {
        assert r[j] == s[j - 1];
      } else if j == p {
        assert r[i] == s[i];
      } else {
        var i' := if i < p then i else i - 1;
        var j' := if j < p then j else j - 1;
        assert r[i] == s[i'] && r[j] == s[j'] && i' < j';
      }
    }
  }

  /** Under a total preorder, inserting at the insertion point keeps a sorted sequence sorted. */
  lemma InsertKeepsSorted<T(!new)>(c: Comparator<T>, s: seq<T>, x: T)
    requires TotalPreorder(c) && Sorted(c, s)
    ensures Sorted(c, Insert(Some(c), s, x))
  {
    var p := FirstAfter(c, s, x);
    var r := Insert(Some(c), s, x);
    InsertAtSplits(s, p, x);
    assert forall j :: p <= j < |s| ==> Le(c, x, s[j]) by {
      if p < |s| {
        assert Le(c, x, s[p]);
        forall j | p < j < |s| ensures Le(c, x, s[j]) {
          assert Chain(c, x, s[p], s[j]);
        }
      }
    }
    forall i, j | 0 <= i < j < |r| ensures Le(c, r[i], r[j]) {
      if i == p {
        assert r[j] == s[j - 1];
      } else if j == p {
        assert r[i] == s[i];
      } else {
        var i' := if i < p then i else i - 1;
        var j' := if j < p then j else j - 1;
        assert r[i] == s[i'] && r[j] == s[j'] && i' < j';
      }
    }
  }

  /** The sequence without any occurrence of `x`, the others in their original order. */
  function RemoveAll<T(==,!new)>(s: seq<T>, x: T): (r: seq<T>)
    ensures x !in r
    ensures forall y :: y != x ==> multiset(r)[y] == multiset(s)[y]
    ensures |r| == |s| - multiset(s)[x]
    ensures forall y :: y in r ==> y in s
  {
    if s == [] then []
    else
      assert s == [s[0]] + s[1..];
      (if s[0] == x then [] else [s[0]]) + RemoveAll(s[1..], x)
  }

  /** Removal keeps a sorted sequence sorted: what remains is a subsequence. */
  lemma {:induction false} RemoveAllKeepsSorted<T(!new)>(c: Comparator<T>, s: seq<T>, x: T)
    requires Sorted(c, s)
    ensures Sorted(c, RemoveAll(s, x))
  {
    if s != [] {
      var tail := RemoveAll(s[1..], x);
      assert Sorted(c, s[1..]);
      RemoveAllKeepsSorted(c, s[1..], x);
      if s[0] != x {
        forall j | 0 <= j < |tail| ensures Le(c, s[0], tail[j]) {
          assert tail[j] in s[1..];
        }
      }
    }
  }

  lemma AppendAssociates<T>(p: seq<T>, q: seq<T>, r: seq<T>)
    ensures p + (q + r) == (p + q) + r
  {
  }

  /** Removal works element by element: the elements that remain keep their original order. */
  lemma {:induction false} RemoveAllDistributes<T(!new)>(a: seq<T>, b: seq<T>, x: T)
    ensures RemoveAll(a + b, x) == RemoveAll(a, x) + RemoveAll(b, x)
  {
    if a == [] {
      assert a + b == b;
    } else {
      var head := if a[0] == x then [] else [a[0]];
      var ab := a + b;
      assert ab[0] == a[0] && ab[1..] == a[1..] + b;
      var rest, tail := RemoveAll(a[1..], x), RemoveAll(b, x);
      RemoveAllDistributes(a[1..], b, x);
      assert RemoveAll(ab, x) == head + (rest + tail);
      assert RemoveAll(a, x) == head + rest;
      AppendAssociates(head, rest, tail);
    }
  }

  /** Removing a value that does not occur changes nothing. */
  lemma {:induction false} RemoveAbsentIsIdentity<T(!new)>(s: seq<T>, x: T)
    requires x !in s
    ensures RemoveAll(s, x) == s
  {
    if s != [] {
      RemoveAbsentIsIdentity(s[1..], x);
      assert s == [s[0]] + s[1..];
    }
  }

  /** The position of `x` in `s`, None when it does not occur (NSNotFound). */
  function IndexOf<T(==)>(s: seq<T>, x: T): (r: Option<nat>)
    ensures r.None? <==> x !in s
    ensures r.Some? ==> r.value < |s| && s[r.value] == x
    ensures r.Some? ==> forall i :: 0 <= i < r.value ==> s[i] != x
  {
    if s == [] then None
    else if s[0] == x then Some(0)
    else match IndexOf(s[1..], x)
      case None => None
      case Some(i) => Some(i + 1)
  }

  /** A sequence without repetitions has as many elements as its set of elements. */
  lemma {:induction false} DistinctCardinality<T>(s: seq<T>)
    requires Distinct(s)
    ensures |set x | x in s| == |s|
  {
    if s != [] {
      var rest := s[1..];
      assert Distinct(rest);
      DistinctCardinality(rest);
      assert s[0] !in rest;
      assert (set x | x in s) == (set x | x in rest) + {s[0]};
    }
  }
}
