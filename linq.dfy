/** Enumerable.Distinct over a sequence: the first occurrence of each element, in order. */
module Linq {

  function Distinct<T(==)>(s: seq<T>): (r: seq<T>)
    ensures forall i :: 0 <= i < |r| ==> r[i] in s
    ensures forall i :: 0 <= i < |s| ==> s[i] in r
    ensures forall i, j :: 0 <= i < j < |r| ==> r[i] != r[j]
    decreases |s|
  {
    if s == [] then []
    else
      var init := s[..|s| - 1];
      var last := s[|s| - 1];
      assert forall i :: 0 <= i < |s| - 1 ==> s[i] == init[i];
      if last in init then Distinct(init) else Distinct(init) + [last]
  }

  /** Appending elements that already occur changes nothing. */
  lemma {:induction false} DistinctIgnoresRepeats<T>(s: seq<T>, extra: seq<T>)
    requires forall i :: 0 <= i < |extra| ==> extra[i] in s
    ensures Distinct(s + extra) == Distinct(s)
    decreases |extra|
  {
    if extra != [] {
      var init := extra[..|extra| - 1];
      DistinctIgnoresRepeats(s, init);
      assert (s + extra)[..|s + extra| - 1] == s + init;
      assert (s + extra)[|s + extra| - 1] == extra[|extra| - 1];
      assert extra[|extra| - 1] in s + init;
    } else {
      assert s + extra == s;
    }
  }

  /** Distinct of a sequence with a given last element. */
  lemma DistinctSnoc<T>(s: seq<T>, y: T)
    ensures Distinct(s + [y]) == if y in s then Distinct(s) else Distinct(s) + [y]
  {
    assert (s + [y])[..|s|] == s && (s + [y])[|s|] == y;
  }

  /** Extending two sequences with the same Distinct by an element both or neither contain. */
  lemma DistinctSnocAgrees<T>(s1: seq<T>, s2: seq<T>, y: T)
    requires Distinct(s1) == Distinct(s2) && (y in s1 <==> y in s2)
    ensures Distinct(s1 + [y]) == Distinct(s2 + [y])
  {
    DistinctSnoc(s1, y);
    DistinctSnoc(s2, y);
  }

  /** An element already in `p` adds no new member. */
  lemma RepeatAddsNoMember<T>(p: seq<T>, a: T, q: seq<T>, y: T)
    requires a in p
    ensures y in p + [a] + q <==> y in p + q
  {
    assert multiset(p + [a] + q) == multiset(p) + multiset{a} + multiset(q);
    assert multiset(p + q) == multiset(p) + multiset(q);
  }

  /** Repeating an element anywhere after its first occurrence changes nothing. */
  lemma {:induction false} DistinctDropsLaterRepeat<T>(p: seq<T>, a: T, q: seq<T>)
    requires a in p
    ensures Distinct(p + [a] + q) == Distinct(p + q)
    decreases |q|
  {
    if q == [] {
      assert p + [a] + q == p + [a] && p + q == p;
      DistinctSnoc(p, a);
    } else {
      var qi, y := q[..|q| - 1], q[|q| - 1];
      DistinctDropsLaterRepeat(p, a, qi);
      assert q == qi + [y];
      assert p + [a] + q == (p + [a] + qi) + [y] && p + q == (p + qi) + [y];
      RepeatAddsNoMember(p, a, qi, y);
      DistinctSnocAgrees(p + [a] + qi, p + qi, y);
    }
  }

  /** Distinct keeps a sequence without repetitions as it is, so it is idempotent. */
  lemma {:induction false} DistinctOfDistinct<T>(s: seq<T>)
    requires forall i, j :: 0 <= i < j < |s| ==> s[i] != s[j]
    ensures Distinct(s) == s
    decreases |s|
  {
    if s != [] {
      var init := s[..|s| - 1];
      DistinctOfDistinct(init);
      assert s[|s| - 1] !in init;
      assert init + [s[|s| - 1]] == s;
    }
  }
}
