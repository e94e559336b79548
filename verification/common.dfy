/** Small shared vocabulary: an optional value and the position of the first
    occurrence of an element in a sequence. */
module Common {

  /** A value that may be absent (JavaScript's `undefined`, a pandas NaN, a failed parse). */
  datatype Option<+T> = None | Some(value: T)

  /** Index of the first occurrence of `x` in `s`. */
  function FirstIndex<T(==)>(s: seq<T>, x: T): (i: nat)
    requires x in s
    ensures i < |s| && s[i] == x
    ensures x !in s[..i]
  {
    if s[0] == x then 0
    else
      var j := FirstIndex(s[1..], x);
      assert s[..j + 1] == [s[0]] + s[1..][..j];
      1 + j
  }

  /** The first occurrence of an element that already occurs in a prefix is found in that prefix. */
  lemma {:induction false} FirstIndexPrefix<T>(s: seq<T>, n: nat, x: T)
    requires n <= |s| && x in s[..n]
    ensures x in s
    ensures FirstIndex(s, x) == FirstIndex(s[..n], x)
  {
    assert s[..n][0] == s[0];
    if s[0] != x {
      assert s[..n][1..] == s[1..][..n - 1];
      FirstIndexPrefix(s[1..], n - 1, x);
    }
  }

  /** A quotient of a non-negative number by a larger positive one lies in [0, 1]. */
  lemma QuotientInUnit(x: real, d: real)
    requires 0.0 <= x <= d && d > 0.0
    ensures 0.0 <= x / d <= 1.0
  {
    assert x / d == x * (1.0 / d);
    assert 1.0 / d > 0.0;
    assert x * (1.0 / d) <= d * (1.0 / d);
  }

  lemma QuotientOfSelf(x: real, d: real)
    requires d > 0.0 && x == d
    ensures x / d == 1.0
  {
  }
}
