/** Facts about sequences that more than one part of the core relies on. */
module Sequences {

  /** `r` is `items` with some elements dropped, the rest in order. */
  predicate Subsequence<T(==)>(r: seq<T>, items: seq<T>)
    decreases |items|
  {
    if r == [] then true
    else if items == [] then false
    else (r[0] == items[0] && Subsequence(r[1..], items[1..])) || Subsequence(r, items[1..])
  }

  /** Dropping the head of `items` keeps subsequences of its tail. */
  lemma SubsequenceDrop<T>(r: seq<T>, items: seq<T>)
    requires items != [] && Subsequence(r, items[1..])
    ensures Subsequence(r, items)
  {
  }

  /** Every element of a subsequence is an element of the list. */
  lemma {:induction false} SubsequenceMembers<T>(r: seq<T>, items: seq<T>)
    requires Subsequence(r, items)
    ensures forall x :: x in r ==> x in items
    decreases |items|
  {
    if r != [] {
      assert items != [];
      if r[0] == items[0] && Subsequence(r[1..], items[1..]) {
        SubsequenceMembers(r[1..], items[1..]);
        assert r == [r[0]] + r[1..];
        assert items == [items[0]] + items[1..];
      } else {
        SubsequenceMembers(r, items[1..]);
      }
    }
  }
}
