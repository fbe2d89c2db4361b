/**
 * OrderBy(attr => attr.Order) over constructed attributes: a stable sort, written as
 * an insertion sort that places each attribute before every later one of equal or
 * greater order.
 */
module OrderBy {
  import opened BehaviorAttribute

  predicate IsSortedByOrder(s: seq<MediatRBehaviorAttribute>) {
    forall i, j :: 0 <= i < j < |s| ==> s[i].order <= s[j].order
  }

  /** The attributes of `s` whose order is `key`, in their order in `s`. */
  function WithOrder(s: seq<MediatRBehaviorAttribute>, key: int): seq<MediatRBehaviorAttribute> {
    if s == [] then []
    else (if s[0].order == key then [s[0]] else []) + WithOrder(s[1..], key)
  }

  /** Inserts `a` in front of the first attribute whose order is at least a's. */
  function InsertByOrder(a: MediatRBehaviorAttribute, s: seq<MediatRBehaviorAttribute>): seq<MediatRBehaviorAttribute> {
    if s == [] || a.order <= s[0].order then [a] + s
    else [s[0]] + InsertByOrder(a, s[1..])
  }

  /** Insertion adds `a` and keeps every other attribute. */
  lemma {:induction false} InsertByOrderPermutes(a: MediatRBehaviorAttribute, s: seq<MediatRBehaviorAttribute>)
    ensures multiset(InsertByOrder(a, s)) == multiset(s) + multiset{a}
  {
    if s != [] && a.order > s[0].order {
      InsertByOrderPermutes(a, s[1..]);
      assert s == [s[0]] + s[1..];
    }
  }

  /** A sorted sequence stays sorted behind an attribute of no greater order than any of it. */
  lemma SortedCons(x: MediatRBehaviorAttribute, s: seq<MediatRBehaviorAttribute>)
    requires IsSortedByOrder(s) && forall y :: y in s ==> x.order <= y.order
    ensures IsSortedByOrder([x] + s)
  {
    var r := [x] + s;
    forall i, j | 0 <= i < j < |r| ensures r[i].order <= r[j].order {
      assert r[j] == s[j - 1];
      if i > 0 { assert r[i] == s[i - 1]; }
    }
  }

  /** Insertion into a sorted sequence keeps it sorted. */
  lemma {:induction false} InsertKeepsSorted(a: MediatRBehaviorAttribute, s: seq<MediatRBehaviorAttribute>)
    requires IsSortedByOrder(s)
    ensures IsSortedByOrder(InsertByOrder(a, s))
  {
    if s != [] && a.order > s[0].order {
      var rest := InsertByOrder(a, s[1..]);
      InsertKeepsSorted(a, s[1..]);
      InsertByOrderPermutes(a, s[1..]);
      forall x | x in rest ensures s[0].order <= x.order {
        assert x in multiset(s[1..]) + multiset{a};
        if x != a { assert x in s[1..]; }
      }
      SortedCons(s[0], rest);
    }
  }

  /** WithOrder of a sequence with a given first attribute. */
  lemma WithOrderCons(x: MediatRBehaviorAttribute, s: seq<MediatRBehaviorAttribute>, key: int)
    ensures WithOrder([x] + s, key) == (if x.order == key then [x] else []) + WithOrder(s, key)
  {
    assert ([x] + s)[0] == x && ([x] + s)[1..] == s;
  }

  /** Insertion puts `a` in front of the attributes of equal order. */
  lemma {:induction false} InsertWithOrder(a: MediatRBehaviorAttribute, s: seq<MediatRBehaviorAttribute>, key: int)
    ensures WithOrder(InsertByOrder(a, s), key) == (if a.order == key then [a] else []) + WithOrder(s, key)
  {
    if s == [] || a.order <= s[0].order {
      WithOrderCons(a, s, key);
    } else {
      var rest := InsertByOrder(a, s[1..]);
      var tail := WithOrder(s[1..], key);
      InsertWithOrder(a, s[1..], key);
      WithOrderCons(s[0], rest, key);
      WithOrderCons(s[0], s[1..], key);
      assert s == [s[0]] + s[1..];
      if s[0].order == key {
        assert WithOrder(InsertByOrder(a, s), key) == [s[0]] + tail;
      } else {
        assert WithOrder(InsertByOrder(a, s), key) == (if a.order == key then [a] else []) + tail;
      }
    }
  }

  /** The stable sort by `order`: insertion sort, inserting each attribute before the first larger order. */
  function SortByOrder(s: seq<MediatRBehaviorAttribute>): seq<MediatRBehaviorAttribute> {
    if s == [] then [] else InsertByOrder(s[0], SortByOrder(s[1..]))
  }

  /** The result of the sort is ordered by `order`. */
  lemma {:induction false} SortByOrderIsSorted(s: seq<MediatRBehaviorAttribute>)
    ensures IsSortedByOrder(SortByOrder(s))
  {
    if s != [] {
      SortByOrderIsSorted(s[1..]);
      InsertKeepsSorted(s[0], SortByOrder(s[1..]));
    }
  }

  /** The sort is a permutation: every attribute as many times as in `s`. */
  lemma {:induction false} SortByOrderPermutes(s: seq<MediatRBehaviorAttribute>)
    ensures multiset(SortByOrder(s)) == multiset(s)
  {
    if s != [] {
      SortByOrderPermutes(s[1..]);
      InsertByOrderPermutes(s[0], SortByOrder(s[1..]));
      assert s == [s[0]] + s[1..];
    }
  }

  /** The sort is stable: the attributes of each order value keep their sequence in `s`. */
  lemma {:induction false} SortByOrderIsStable(s: seq<MediatRBehaviorAttribute>, key: int)
    ensures WithOrder(SortByOrder(s), key) == WithOrder(s, key)
  {
    if s != [] {
      SortByOrderIsStable(s[1..], key);
      InsertWithOrder(s[0], SortByOrder(s[1..]), key);
    }
  }

  /** The sort is a stable ordering of its input. */
  lemma SortByOrderIsStableOrder(s: seq<MediatRBehaviorAttribute>)
    ensures IsSortedByOrder(SortByOrder(s))
    ensures multiset(SortByOrder(s)) == multiset(s)
    ensures forall key :: WithOrder(SortByOrder(s), key) == WithOrder(s, key)
  {
    SortByOrderIsSorted(s);
    SortByOrderPermutes(s);
    forall key ensures WithOrder(SortByOrder(s), key) == WithOrder(s, key) {
      SortByOrderIsStable(s, key);
    }
  }

  /** `r` arranges `s` by ascending order, keeping equal orders in their sequence in `s`. */
  ghost predicate IsStableOrderOf(r: seq<MediatRBehaviorAttribute>, s: seq<MediatRBehaviorAttribute>) {
    IsSortedByOrder(r) && forall key :: WithOrder(r, key) == WithOrder(s, key)
  }

  lemma {:induction false} WithOrderMember(s: seq<MediatRBehaviorAttribute>, key: int, x: MediatRBehaviorAttribute)
    requires x in WithOrder(s, key)
    ensures x in s && x.order == key
  {
    if s != [] && x !in (if s[0].order == key then [s[0]] else []) {
      WithOrderMember(s[1..], key, x);
    }
  }

  /** The first attribute of a sorted sequence has the least order, and heads the attributes of that order. */
  lemma {:induction false} HeadOfSorted(r: seq<MediatRBehaviorAttribute>, x: MediatRBehaviorAttribute)
    requires IsSortedByOrder(r) && r != [] && x in r
    ensures r[0].order <= x.order
    ensures WithOrder(r, r[0].order) == [r[0]] + WithOrder(r[1..], r[0].order)
  {
  }

  /** Equal heads and equal per-order subsequences leave equal per-order subsequences of the tails. */
  lemma TailsAgree(r1: seq<MediatRBehaviorAttribute>, r2: seq<MediatRBehaviorAttribute>, key: int)
    requires r1 != [] && r2 != [] && r1[0] == r2[0]
    requires WithOrder(r1, key) == WithOrder(r2, key)
    ensures WithOrder(r1[1..], key) == WithOrder(r2[1..], key)
  {
    var w1, w2 := WithOrder(r1[1..], key), WithOrder(r2[1..], key);
    if key == r1[0].order {
      assert WithOrder(r1, key) == [r1[0]] + w1;
      assert WithOrder(r2, key) == [r2[0]] + w2;
      assert ([r1[0]] + w1)[1..] == w1;
      assert ([r2[0]] + w2)[1..] == w2;
    } else {
      assert WithOrder(r1, key) == [] + w1 == w1;
      assert WithOrder(r2, key) == [] + w2 == w2;
    }
  }

  /** Sorted sequences with the same per-order subsequences start with the same attribute. */
  lemma HeadsAgree(r1: seq<MediatRBehaviorAttribute>, r2: seq<MediatRBehaviorAttribute>)
    requires IsSortedByOrder(r1) && IsSortedByOrder(r2) && r1 != [] && r2 != []
    requires WithOrder(r1, r1[0].order) == WithOrder(r2, r1[0].order)
    requires WithOrder(r1, r2[0].order) == WithOrder(r2, r2[0].order)
    ensures r1[0] == r2[0]
  {
    var k1, k2 := r1[0].order, r2[0].order;
    assert WithOrder(r2, k2)[0] == r2[0];
    WithOrderMember(r1, k2, r2[0]);
    HeadOfSorted(r1, r2[0]);
    assert WithOrder(r1, k1)[0] == r1[0];
    WithOrderMember(r2, k1, r1[0]);
    HeadOfSorted(r2, r1[0]);
    assert r1[0] == WithOrder(r1, k1)[0] == WithOrder(r2, k1)[0] == r2[0];
  }

  lemma FirstOrderPresent(r: seq<MediatRBehaviorAttribute>)
    requires r != []
    ensures WithOrder(r, r[0].order) != []
  {
  }

  /** Two stable orderings of the same attributes agree. */
  lemma {:induction false} StableOrderIsUnique(r1: seq<MediatRBehaviorAttribute>, r2: seq<MediatRBehaviorAttribute>)
    requires IsSortedByOrder(r1) && IsSortedByOrder(r2)
    requires forall key :: WithOrder(r1, key) == WithOrder(r2, key)
    ensures r1 == r2
    decreases |r1| + |r2|
  {
    if r1 == [] {
      if r2 != [] {
        FirstOrderPresent(r2);
        assert false;
      }
    } else if r2 == [] {
      FirstOrderPresent(r1);
      assert false;
    } else {
      HeadsAgree(r1, r2);
      forall key ensures WithOrder(r1[1..], key) == WithOrder(r2[1..], key) {
        TailsAgree(r1, r2, key);
      }
      StableOrderIsUnique(r1[1..], r2[1..]);
      assert r1 == [r1[0]] + r1[1..];
      assert r2 == [r2[0]] + r2[1..];
    }
  }

  /** SortByOrder is the one stable ordering: any stable ordering of `s` equals it. */
  lemma StableOrderIsSortByOrder(r: seq<MediatRBehaviorAttribute>, s: seq<MediatRBehaviorAttribute>)
    requires IsStableOrderOf(r, s)
    ensures r == SortByOrder(s)
  {
    SortByOrderIsStableOrder(s);
    StableOrderIsUnique(r, SortByOrder(s));
  }
}
