/**
 * Document-order lookup, the part of `querySelector` / `getElementById`
 * that the handlers depend on: the first element, in document order, whose
 * attribute has a given value, or none.
 */
module Dom {

  /** `i` is the first position of `x` in `s`. */
  predicate IsFirst<T(==)>(s: seq<T>, x: T, i: int) {
    0 <= i < |s| && s[i] == x && x !in s[..i]
  }

  /** Linear search in document order. */
  method FindFirst<T(==)>(s: seq<T>, x: T) returns (found: bool, i: nat)
    ensures found <==> x in s
    ensures found ==> IsFirst(s, x, i)
  {
    i := 0;
    while i < |s| && s[i] != x
      invariant 0 <= i <= |s|
      invariant x !in s[..i]
    {
      assert s[..i + 1] == s[..i] + [s[i]];
      i := i + 1;
    }
    found := i < |s|;
    if !found {
      assert s[..i] == s;
    }
  }

  /** The first position is unique. */
  lemma FirstUnique<T>(s: seq<T>, x: T, i: int, j: int)
    requires IsFirst(s, x, i) && IsFirst(s, x, j)
    ensures i == j
  {
  }

  /** Whatever occurs in `s` has a first position. */
  lemma {:induction false} FirstExists<T>(s: seq<T>, x: T)
    requires x in s
    ensures exists i :: IsFirst(s, x, i)
  {
    if s[0] == x {
      assert IsFirst(s, x, 0);
    } else {
      FirstExists(s[1..], x);
      var i :| IsFirst(s[1..], x, i);
      assert s[..i + 1] == [s[0]] + s[1..][..i];
      assert IsFirst(s, x, i + 1);
    }
  }
}
