/** Occurrence counts in sequences: subscriptions in an invocation list, line breaks in a text. */
module Counting {

  /** How many times `x` occurs in `s`. */
  function Count<X(==)>(s: seq<X>, x: X): (n: nat)
    ensures n <= |s|
    ensures n == 0 <==> x !in s
  {
    if s == [] then 0
    else Count(s[..|s| - 1], x) + (if s[|s| - 1] == x then 1 else 0)
  }

  /** Counts add up over a concatenation. */
  lemma {:induction false} CountConcat<X>(s: seq<X>, u: seq<X>, x: X)
    ensures Count(s + u, x) == Count(s, x) + Count(u, x)
  {
    if u == [] {
      assert s + u == s;
    } else {
      assert (s + u)[..|s + u| - 1] == s + u[..|u| - 1];
      CountConcat(s, u[..|u| - 1], x);
    }
  }

  /** Appending one element counts it once more when it is `x`. */
  lemma CountSnoc<X>(s: seq<X>, y: X, x: X)
    ensures Count(s + [y], x) == Count(s, x) + (if y == x then 1 else 0)
  {
    assert (s + [y])[..|s|] == s;
  }
}
