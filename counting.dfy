/** Counting the elements of a sequence that satisfy a condition: the meaning
    of every "+= 1" the aggregators perform. */
module Counting {

  /** The number of elements of s that satisfy p, counted from the back so that
      a loop over s[..i] extends it one element at a time. */
  function Count<T>(s: seq<T>, p: T -> bool): (n: nat)
    ensures n <= |s|
  {
    if s == [] then 0 else Count(s[..|s| - 1], p) + (if p(s[|s| - 1]) then 1 else 0)
  }

  /** Appending one element adds one exactly when it satisfies p. */
  lemma CountSnoc<T>(s: seq<T>, x: T, p: T -> bool)
    ensures Count(s + [x], p) == Count(s, p) + (if p(x) then 1 else 0)
  {
    assert (s + [x])[..|s|] == s;
  }

  /** Counting is additive over concatenation. */
  lemma {:induction false} CountAppend<T>(a: seq<T>, b: seq<T>, p: T -> bool)
    ensures Count(a + b, p) == Count(a, p) + Count(b, p)
  {
    if b != [] {
      var b' := b[..|b| - 1];
      assert a + b == (a + b') + [b[|b| - 1]];
      CountAppend(a, b', p);
      CountSnoc(a + b', b[|b| - 1], p);
    } else {
      assert a + b == a;
    }
  }

  /** Taking the last element of a and one equal element of b out of two
      sequences with the same elements leaves the same elements. */
  lemma RemoveLast<T>(a: seq<T>, b: seq<T>, j: nat)
    requires multiset(a) == multiset(b) && a != [] && j < |b| && b[j] == a[|a| - 1]
    ensures multiset(a[..|a| - 1]) == multiset(b[..j] + b[j + 1..])
  {
    var x := a[|a| - 1];
    assert a == a[..|a| - 1] + [x];
    assert b == b[..j] + [x] + b[j + 1..];
    assert multiset(a) == multiset(a[..|a| - 1]) + multiset{x};
    assert multiset(b) == multiset(b[..j]) + multiset{x} + multiset(b[j + 1..]);
    assert multiset(b[..j] + b[j + 1..]) == multiset(b[..j]) + multiset(b[j + 1..]);
    assert multiset(a[..|a| - 1]) == multiset(a) - multiset{x};
  }

  /** The count does not depend on the order of the elements. */
  lemma {:induction false} CountPermutation<T>(a: seq<T>, b: seq<T>, p: T -> bool)
    requires multiset(a) == multiset(b)
    ensures Count(a, p) == Count(b, p)
  {
    if a == [] {
      assert |b| == |multiset(b)| == 0;
    } else {
      var x := a[|a| - 1];
      var a' := a[..|a| - 1];
      assert a == a' + [x];
      assert x in multiset(b);
      var j :| 0 <= j < |b| && b[j] == x;
      var b' := b[..j] + b[j + 1..];
      assert b == b[..j] + [x] + b[j + 1..];
      RemoveLast(a, b, j);
      CountPermutation(a', b', p);
      CountAppend(b[..j], b[j + 1..], p);
      CountAppend(b[..j] + [x], b[j + 1..], p);
      CountSnoc(b[..j], x, p);
      CountSnoc(a', x, p);
    }
  }

  /** No element satisfies p exactly when the count is zero. */
  lemma {:induction false} CountZeroIff<T>(s: seq<T>, p: T -> bool)
    ensures Count(s, p) == 0 <==> forall i :: 0 <= i < |s| ==> !p(s[i])
  {
    if s != [] {
      var s' := s[..|s| - 1];
      CountZeroIff(s', p);
      assert forall i :: 0 <= i < |s'| ==> s'[i] == s[i];
    }
  }

  /** Two conditions that never hold together, and each implies u, count at most as many as u. */
  lemma {:induction false} CountDisjointBound<T>(s: seq<T>, p: T -> bool, q: T -> bool, u: T -> bool)
    requires forall i :: 0 <= i < |s| ==> !(p(s[i]) && q(s[i]))
    requires forall i :: 0 <= i < |s| ==> (p(s[i]) || q(s[i])) ==> u(s[i])
    ensures Count(s, p) + Count(s, q) <= Count(s, u)
  {
    if s != [] {
      var s' := s[..|s| - 1];
      assert forall i :: 0 <= i < |s'| ==> s'[i] == s[i];
      CountDisjointBound(s', p, q, u);
    }
  }
}
