/** Facts about sequences and their multisets that several modules use. */
module Sequences {

  lemma SomeElement<T>(s: seq<T>)
    requires s != []
    ensures exists x :: x in s
  {
    assert s[0] in s;
  }

  lemma SplitMultiset<T>(b1: seq<T>, x: T, b2: seq<T>)
    ensures multiset(b1 + b2) == multiset(b1 + ([x] + b2)) - multiset{x}
  {}

  /** An element of the multiset stands somewhere in the sequence. */
  lemma Position<T>(b: seq<T>, x: T) returns (b1: seq<T>, b2: seq<T>)
    requires x in multiset(b)
    ensures b == b1 + ([x] + b2)
  {
    var k :| 0 <= k < |b| && b[k] == x;
    b1, b2 := b[..k], b[k + 1..];
  }

  /** Two sequences with the same elements, one of them split at an element: the rest of the
      other splits alike. */
  lemma TakeOut<T>(a1: seq<T>, x: T, a2: seq<T>, b: seq<T>) returns (b1: seq<T>, b2: seq<T>)
    requires multiset(a1 + ([x] + a2)) == multiset(b)
    ensures b == b1 + ([x] + b2) && multiset(a1 + a2) == multiset(b1 + b2)
  {
    assert (a1 + ([x] + a2))[|a1|] == x;
    b1, b2 := Position(b, x);
    SplitMultiset(a1, x, a2);
    SplitMultiset(b1, x, b2);
  }
}
