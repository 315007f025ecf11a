/** Sizes of sets and quotients of integers. */
module Basics {
  lemma SubsetSize<T>(a: set<T>, b: set<T>)
    requires a <= b
    ensures |a| <= |b|
    ensures |a| == |b| ==> a == b
  {
    assert b == a + (b - a);
    assert |b| == |a| + |b - a|;
  }

  /** An injective image is as large as the set it is taken of. */
  lemma {:induction false} ImageSize<T>(s: set<int>, n: nat, f: int -> T)
    requires forall x :: x in s ==> 0 <= x < n
    requires forall x, y :: x in s && y in s && f(x) == f(y) ==> x == y
    ensures |set x | x in s :: f(x)| == |s|
    decreases n
  {
    if n > 0 {
      var x := n - 1;
      ImageSize(s - {x}, n - 1, f);
      if x in s {
        assert (set y | y in s :: f(y)) == (set y | y in s - {x} :: f(y)) + {f(x)};
      } else {
        assert s - {x} == s;
      }
    } else {
      assert forall x: int :: x !in s;
    }
  }

  lemma Magnitude(x: int, e: int)
    requires e >= 1
    ensures x >= 1 ==> x * e >= e && x * e >= x
    ensures x <= -1 ==> x * e <= -e
  {
  }

  /** Quotient and remainder are the only ones that multiply out. */
  lemma DivUnique(n: int, e: int, q: int, r: int)
    requires e >= 1 && n == q * e + r && 0 <= r < e
    ensures n / e == q && n % e == r
  {
    var q', r' := n / e, n % e;
    assert n == q' * e + r' && 0 <= r' < e;
    assert (q - q') * e == r' - r;
    Magnitude(q - q', e);
  }
}
