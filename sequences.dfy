/** Sequences: order without contents, for the filters of the model (the
    compression candidates the loop attempts, the rows the purge keeps). */
module Sequences {

  /** `a` is `b` with some of its elements dropped, the rest in order. */
  predicate IsSubsequence<T(==)>(a: seq<T>, b: seq<T>)
    decreases |b|
  {
    if a == [] then true
    else if b == [] then false
    else if a[|a| - 1] == b[|b| - 1] then IsSubsequence(a[..|a| - 1], b[..|b| - 1])
    else IsSubsequence(a, b[..|b| - 1])
  }

  /** An element put in front of both keeps the order. */
  lemma {:induction false} SubsequenceConsBoth<T>(x: T, a: seq<T>, b: seq<T>)
    requires IsSubsequence(a, b)
    ensures IsSubsequence([x] + a, [x] + b)
    decreases |b|
  {
    if b == [] {
      assert a == [];
      assert ([x] + a)[..0] == [];
    } else {
      var b' := b[..|b| - 1];
      assert ([x] + b)[..|b|] == [x] + b';
      if a == [] {
        if x != b[|b| - 1] {
          SubsequenceConsBoth(x, a, b');
        } else {
          assert ([x] + a)[..0] == [];
        }
      } else {
        var a' := a[..|a| - 1];
        assert ([x] + a)[..|a|] == [x] + a';
        if a[|a| - 1] == b[|b| - 1] {
          SubsequenceConsBoth(x, a', b');
        } else {
          SubsequenceConsBoth(x, a, b');
        }
      }
    }
  }

  /** An element put in front of the longer one only keeps the order. */
  lemma {:induction false} SubsequenceConsRight<T>(x: T, a: seq<T>, b: seq<T>)
    requires IsSubsequence(a, b)
    ensures IsSubsequence(a, [x] + b)
    decreases |b|
  {
    if a != [] {
      var a', b' := a[..|a| - 1], b[..|b| - 1];
      assert ([x] + b)[..|b|] == [x] + b';
      if a[|a| - 1] == b[|b| - 1] {
        SubsequenceConsRight(x, a', b');
      } else {
        SubsequenceConsRight(x, a, b');
      }
    }
  }
}
