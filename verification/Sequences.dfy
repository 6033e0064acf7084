/** Removing elements from lists. */
module Sequences {

  /** What std::remove and erase leave of a list. */
  function Without<T(==)>(s: seq<T>, x: T): (r: seq<T>)
    ensures x !in r && forall y :: y in r ==> y in s
  {
    if s == [] then [] else Without(s[..|s| - 1], x) + (if s[|s| - 1] == x then [] else [s[|s| - 1]])
  }

  /** Erasing goes through a list in order: part by part, and element by element. */
  lemma {:induction false} WithoutConcat<T>(a: seq<T>, b: seq<T>, x: T)
    ensures Without(a + b, x) == Without(a, x) + Without(b, x)
  {
    if b == [] {
      assert a + b == a && Without(a, x) + [] == Without(a, x);
    } else {
      var n := |b| - 1;
      assert (a + b)[..|a| + n] == a + b[..n];
      WithoutConcat(a, b[..n], x);
    }
  }

  lemma WithoutOne<T>(x: T, y: T)
    ensures Without([y], x) == if y == x then [] else [y]
  {
    assert [y][..0] == [];
  }

  lemma {:induction false} WithoutKeeps<T>(s: seq<T>, x: T, y: T)
    requires y in s && y != x
    ensures y in Without(s, x)
  {
    var n := |s| - 1;
    if s[n] != y {
      assert s == s[..n] + [s[n]];
      WithoutKeeps(s[..n], x, y);
    }
  }

  method Erase<T(==)>(s: seq<T>, x: T) returns (kept: seq<T>)
    ensures kept == Without(s, x)
  {
    kept := [];
    var i := 0;
    while i < |s|
      invariant i <= |s| && kept == Without(s[..i], x)
    {
      assert s[..i + 1][..i] == s[..i];
      if s[i] != x {
        kept := kept + [s[i]];
      }
      i := i + 1;
    }
    assert s[..i] == s;
  }
}
