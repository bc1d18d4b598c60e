/** Sums over sequences, and the fact that order does not matter to them. */
module Sums {
  /** The sum of f over the elements of s. */
  function Total<T>(s: seq<T>, f: T -> nat): nat {
    if s == [] then 0 else Total(s[..|s| - 1], f) + f(s[|s| - 1])
  }

  /** The sequences f gives for the elements of s, one after the other. */
  function Flat<T, U>(s: seq<T>, f: T -> seq<U>): seq<U> {
    if s == [] then [] else Flat(s[..|s| - 1], f) + f(s[|s| - 1])
  }

  lemma FlatOne<T, U>(x: T, f: T -> seq<U>)
    ensures Flat([x], f) == f(x) && Flat([], f) == []
  {
    assert [x][..0] == [];
  }

  lemma FlatAppend<T, U>(s: seq<T>, x: T, f: T -> seq<U>)
    ensures Flat(s + [x], f) == Flat(s, f) + f(x)
  {
    assert (s + [x])[..|s|] == s;
  }

  lemma {:induction false} FlatConcat<T, U>(a: seq<T>, b: seq<T>, f: T -> seq<U>)
    ensures Flat(a + b, f) == Flat(a, f) + Flat(b, f)
  {
    if b == [] {
      assert a + b == a;
    } else {
      hide Flat;
      var front, last := b[..|b| - 1], b[|b| - 1];
      FlatConcat(a, front, f);
      FlatAppend(a + front, last, f);
      FlatAppend(front, last, f);
      assert a + b == a + front + [last] && b == front + [last];
    }
  }

  function Same(n: nat): nat { n }

  function Sum(s: seq<nat>): nat {
    Total(s, Same)
  }

  lemma TotalOne<T>(x: T, f: T -> nat)
    ensures Total([x], f) == f(x)
  {
    assert [x][..0] == [];
  }

  lemma TotalAppend<T>(s: seq<T>, x: T, f: T -> nat)
    ensures Total(s + [x], f) == Total(s, f) + f(x)
  {
    assert (s + [x])[..|s|] == s;
  }

  lemma {:induction false} TotalConcat<T>(a: seq<T>, b: seq<T>, f: T -> nat)
    ensures Total(a + b, f) == Total(a, f) + Total(b, f)
  {
    if b == [] {
      assert a + b == a;
    } else {
      var n := |b| - 1;
      assert (a + b)[..|a + b| - 1] == a + b[..n];
      TotalConcat(a, b[..n], f);
    }
  }

  /** Taking one occurrence of x out of s. */
  lemma TakeOut<T>(s: seq<T>, x: T, f: T -> nat) returns (rest: seq<T>)
    requires x in s
    ensures |rest| == |s| - 1 && Total(s, f) == f(x) + Total(rest, f)
    ensures multiset(s) == multiset(rest) + multiset{x}
  {
    var k :| 0 <= k < |s| && s[k] == x;
    var front, back := s[..k], s[k + 1..];
    rest := front + back;
    assert s == (front + [x]) + back;
    TotalConcat(front + [x], back, f);
    TotalConcat(front, [x], f);
    TotalOne(x, f);
    TotalConcat(front, back, f);
  }

  /** A sum depends only on the multiset of its elements. */
  lemma {:induction false} TotalPermutation<T>(a: seq<T>, b: seq<T>, f: T -> nat)
    requires multiset(a) == multiset(b)
    ensures Total(a, f) == Total(b, f) && |a| == |b|
    decreases |a|
  {
    assert |a| == |multiset(a)| == |multiset(b)| == |b|;
    if a != [] {
      var x := a[0];
      assert x in multiset(b);
      var c := TakeOut(a, x, f);
      var d := TakeOut(b, x, f);
      assert multiset(c) == multiset(a) - multiset{x} == multiset(d);
      TotalPermutation(c, d, f);
    }
  }
}
