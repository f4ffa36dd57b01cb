/** Counting occurrences in sequences, and order-preserving selection. */
module Seqs {

  /** How many times `x` occurs in `s`. */
  function Count<T(==)>(s: seq<T>, x: T): nat {
    if s == [] then 0 else (if s[0] == x then 1 else 0) + Count(s[1..], x)
  }

  /** `r` is `s` with some elements dropped: what remains keeps its relative order. */
  predicate Subsequence<T(==)>(r: seq<T>, s: seq<T>)
    decreases |s|
  {
    if r == [] then true
    else if s == [] then false
    else (r[0] == s[0] && Subsequence(r[1..], s[1..])) || Subsequence(r, s[1..])
  }

  lemma {:induction false} CountAppend<T>(a: seq<T>, b: seq<T>, x: T)
    ensures Count(a + b, x) == Count(a, x) + Count(b, x)
  {
    if a == [] {
      assert a + b == b;
    } else {
      assert (a + b)[1..] == a[1..] + b;
      CountAppend(a[1..], b, x);
    }
  }

  /** A sequence made of one repeated value holds any other value zero times. */
  lemma {:induction false} CountRepeated<T>(s: seq<T>, x: T, y: T)
    requires forall k | 0 <= k < |s| :: s[k] == x
    ensures Count(s, y) == if x == y then |s| else 0
  {
    if s != [] {
      CountRepeated(s[1..], x, y);
    }
  }

  lemma {:induction false} CountPositive<T>(s: seq<T>, x: T)
    ensures Count(s, x) > 0 <==> x in s
  {
    if s != [] {
      CountPositive(s[1..], x);
      assert x in s <==> s[0] == x || x in s[1..] by {
        assert s == [s[0]] + s[1..];
      }
    }
  }
}
