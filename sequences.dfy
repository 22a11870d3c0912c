/** Sequence facts shared by the palindrome check and the list reversal. */
module Sequences {

  /** The sequence read back to front (Python's `s[::-1]`). */
  function Reverse<T>(s: seq<T>): (r: seq<T>)
    ensures |r| == |s|
  {
    seq(|s|, i requires 0 <= i < |s| => s[|s| - 1 - i])
  }

  /** `t` reads the same forwards and backwards. */
  predicate IsPal<T(==)>(t: seq<T>)
  {
    t == Reverse(t)
  }

  /** A sequence of length at most one is a palindrome. */
  lemma ShortIsPal<T>(t: seq<T>)
    requires |t| <= 1
    ensures IsPal(t)
  {
  }

  /** A palindrome, element by element: position `i` matches position `|t| - 1 - i`. */
  lemma PalPointwise<T>(t: seq<T>)
    ensures IsPal(t) <==> forall i :: 0 <= i < |t| ==> t[i] == t[|t| - 1 - i]
  {
  }

  /**
   * Peeling the outer pair: `x + m + y` is a palindrome exactly when the
   * outer elements agree and the middle is a palindrome.
   */
  lemma PalShell<T>(x: T, m: seq<T>, y: T)
    ensures IsPal([x] + m + [y]) <==> x == y && IsPal(m)
  {
    var t := [x] + m + [y];
    var n := |m|;
    PalPointwise(t);
    PalPointwise(m);
    if IsPal(t) {
      assert t[0] == t[n + 1];
      forall i | 0 <= i < n
        ensures m[i] == m[n - 1 - i]
      {
        assert t[i + 1] == t[n - i];
      }
    }
    if x == y && IsPal(m) {
      forall i | 0 <= i < n + 2
        ensures t[i] == t[n + 1 - i]
      {
        if 0 < i < n + 1 {
          assert t[i] == m[i - 1] && t[n + 1 - i] == m[n - i];
        }
      }
    }
  }
}
