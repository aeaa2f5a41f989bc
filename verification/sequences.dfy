/** Sequence facts used to reason about the order in which held keys and
    buttons are replayed. */
module Sequences {

  /** No element occurs twice. */
  predicate Distinct<T(==)>(s: seq<T>) {
    forall k, l | 0 <= k < l < |s| :: s[k] != s[l]
  }

  /** The set of elements of a sequence. */
  function Elems<T(==)>(s: seq<T>): (r: set<T>)
    ensures forall k | 0 <= k < |s| :: s[k] in r
    ensures forall x | x in r :: x in s
  {
    if |s| == 0 then {} else {s[0]} + Elems(s[1..])
  }

  /** The elements that satisfy `keep`, in their original order. */
  function Filter<T(==)>(s: seq<T>, keep: T -> bool): (r: seq<T>)
    ensures |r| <= |s|
    ensures forall k | 0 <= k < |s| && keep(s[k]) :: s[k] in r
    ensures forall x | x in r :: x in s && keep(x)
  {
    if |s| == 0 then []
    else if keep(s[0]) then [s[0]] + Filter(s[1..], keep)
    else Filter(s[1..], keep)
  }

  /** One step of `Filter`. */
  lemma FilterStep<T>(s: seq<T>, keep: T -> bool)
    requires |s| > 0
    ensures keep(s[0]) ==> Filter(s, keep) == [s[0]] + Filter(s[1..], keep)
    ensures !keep(s[0]) ==> Filter(s, keep) == Filter(s[1..], keep)
  {
  }

  /** One step of `Filter`, with the set of what it keeps. */
  lemma FilterCons<T>(s: seq<T>, keep: T -> bool)
    requires |s| > 0
    ensures keep(s[0]) ==> Filter(s, keep) == [s[0]] + Filter(s[1..], keep)
    ensures !keep(s[0]) ==> Filter(s, keep) == Filter(s[1..], keep)
    ensures Elems(Filter(s, keep)) == (if keep(s[0]) then {s[0]} else {}) + Elems(Filter(s[1..], keep))
  {
    FilterStep(s, keep);
    if keep(s[0]) {
      assert ([s[0]] + Filter(s[1..], keep))[1..] == Filter(s[1..], keep);
    }
  }

  /** `order` lists the members of `s` once each, as a HashSet may
      enumerate them. */
  predicate Enumerates<T(==)>(order: seq<T>, s: set<T>) {
    Distinct(order) && Elems(order) == s
  }

  lemma {:induction false} DistinctTail<T>(s: seq<T>)
    requires Distinct(s) && |s| > 0
    ensures Distinct(s[1..]) && s[0] !in s[1..]
  {
    assert forall k | 0 <= k < |s| - 1 :: s[1..][k] == s[k + 1];
  }

  lemma {:induction false} FilterDistinct<T>(s: seq<T>, keep: T -> bool)
    requires Distinct(s)
    ensures Distinct(Filter(s, keep))
  {
    if |s| > 0 {
      DistinctTail(s);
      FilterDistinct(s[1..], keep);
    }
  }

  /** A sequence without repetitions has as many elements as its set. */
  lemma {:induction false} DistinctCard<T>(s: seq<T>)
    requires Distinct(s)
    ensures |Elems(s)| == |s|
  {
    if |s| > 0 {
      DistinctTail(s);
      DistinctCard(s[1..]);
      assert Elems(s) == {s[0]} + Elems(s[1..]);
    }
  }

  /** Filtering keeps everything when every element passes. */
  lemma {:induction false} FilterAll<T>(s: seq<T>, keep: T -> bool)
    requires forall k | 0 <= k < |s| :: keep(s[k])
    ensures Filter(s, keep) == s
  {
    if |s| > 0 {
      FilterAll(s[1..], keep);
      assert s == [s[0]] + s[1..];
    }
  }
}
