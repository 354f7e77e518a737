// Vectors of integers standing for scalars and group elements, and the
// multiscalar multiplication over them.
module Vectors {
  import opened Scalars

  // The inner product over the integers, accumulated from the front.
  function SumOfProducts(a: seq<int>, b: seq<int>): int
    requires |a| == |b|
  {
    if |a| == 0 then 0
    else
      var n := |a| - 1;
      SumOfProducts(a[..n], b[..n]) + Times(a[n], b[n])
  }

  // Folded like products and remainders: a proof unfolds it with `Dots`.
  function FoldedDot(a: seq<int>, b: seq<int>, n: nat): int
    requires |a| == |b|
  {
    if n == 0 then SumOfProducts(a, b) else FoldedDot(a, b, n - 1)
  }

  function Dot(a: seq<int>, b: seq<int>): int
    requires |a| == |b|
  {
    FoldedDot(a, b, q)
  }

  lemma UnfoldDot(a: seq<int>, b: seq<int>, n: nat)
    requires |a| == |b|
    ensures FoldedDot(a, b, n) == SumOfProducts(a, b)
  {
  }

  lemma Dots()
    ensures forall a: seq<int>, b: seq<int> :: |a| == |b| ==> Dot(a, b) == SumOfProducts(a, b)
  {
    forall a: seq<int>, b: seq<int> | |a| == |b|
      ensures Dot(a, b) == SumOfProducts(a, b)
    {
      UnfoldDot(a, b, q);
    }
  }

  lemma DotPrefix(a: seq<int>, b: seq<int>, n: nat)
    requires n < |a| == |b|
    ensures Dot(a[..n + 1], b[..n + 1]) == Dot(a[..n], b[..n]) + Times(a[n], b[n])
  {
    Dots();
    assert a[..n + 1][..n] == a[..n] && b[..n + 1][..n] == b[..n];
  }

  lemma DotEnds(a: seq<int>, b: seq<int>)
    requires |a| == |b|
    ensures Dot(a[..0], b[..0]) == 0 && Dot(a[..|a|], b[..|b|]) == Dot(a, b)
    ensures |a| == 1 ==> Dot(a, b) == Times(a[0], b[0])
  {
    Dots();
    assert a[..|a|] == a && b[..|b|] == b;
    assert |a| == 1 ==> SumOfProducts(a[..0], b[..0]) == 0;
  }

  // The same residues entry by entry.
  predicate Same(a: seq<int>, b: seq<int>) {
    |a| == |b| && forall i :: 0 <= i < |a| ==> Red(a[i]) == Red(b[i])
  }

  function Scale(c: int, a: seq<int>): (r: seq<int>)
    ensures |r| == |a|
  {
    seq(|a|, i requires 0 <= i < |a| => Times(c, a[i]))
  }

  function Plus(a: seq<int>, b: seq<int>): (r: seq<int>)
    requires |a| == |b|
    ensures |r| == |a|
  {
    seq(|a|, i requires 0 <= i < |a| => a[i] + b[i])
  }

  // The entrywise product, reduced.
  function Hadamard(a: seq<int>, b: seq<int>): (r: seq<Scalar>)
    requires |a| == |b|
    ensures |r| == |a|
  {
    seq(|a|, i requires 0 <= i < |a| => Red(Times(a[i], b[i])))
  }

  function Reduced(a: seq<int>): (r: seq<Scalar>)
    ensures |r| == |a|
  {
    seq(|a|, i requires 0 <= i < |a| => Red(a[i]))
  }

  // Multiscalar multiplication.
  function Msm(scalars: seq<int>, points: seq<int>): Element
    requires |scalars| == |points|
  {
    Red(Dot(scalars, points))
  }

  lemma {:induction false} DotSame(a: seq<int>, a': seq<int>, b: seq<int>, b': seq<int>)
    requires |a| == |b| && Same(a, a') && Same(b, b')
    ensures Red(Dot(a, b)) == Red(Dot(a', b'))
  {
    Dots();
    if |a| > 0 {
      var n := |a| - 1;
      DotSame(a[..n], a'[..n], b[..n], b'[..n]);
      RedMul(a[n], a'[n], b[n], b'[n]);
      RedAdd(Dot(a[..n], b[..n]), Dot(a'[..n], b'[..n]), Times(a[n], b[n]), Times(a'[n], b'[n]));
    }
  }

  lemma {:induction false} DotConcat(a: seq<int>, a': seq<int>, b: seq<int>, b': seq<int>)
    requires |a| == |b| && |a'| == |b'|
    ensures Dot(a + a', b + b') == Dot(a, b) + Dot(a', b')
  {
    Dots();
    if |a'| == 0 {
      assert a + a' == a && b + b' == b;
    } else {
      var n := |a'| - 1;
      DotConcat(a, a'[..n], b, b'[..n]);
      assert (a + a')[..|a| + n] == a + a'[..n];
      assert (b + b')[..|b| + n] == b + b'[..n];
    }
  }

  lemma {:induction false} DotScale(c: int, a: seq<int>, b: seq<int>)
    requires |a| == |b|
    ensures Dot(Scale(c, a), b) == Times(c, Dot(a, b))
  {
    Dots();
    Products();
    if |a| > 0 {
      var n := |a| - 1;
      DotScale(c, a[..n], b[..n]);
      assert Scale(c, a)[..n] == Scale(c, a[..n]);
      assert c * a[n] * b[n] == c * (a[n] * b[n]);
    }
  }

  lemma {:induction false} DotPlus(a: seq<int>, b: seq<int>, c: seq<int>)
    requires |a| == |b| == |c|
    ensures Dot(Plus(a, b), c) == Dot(a, c) + Dot(b, c)
  {
    Dots();
    Products();
    if |a| > 0 {
      var n := |a| - 1;
      DotPlus(a[..n], b[..n], c[..n]);
      assert Plus(a, b)[..n] == Plus(a[..n], b[..n]);
    }
  }

  lemma DotCombination(x: int, a: seq<int>, y: int, b: seq<int>, c: seq<int>)
    requires |a| == |b| == |c|
    ensures Dot(Plus(Scale(x, a), Scale(y, b)), c) == Times(x, Dot(a, c)) + Times(y, Dot(b, c))
  {
    DotPlus(Scale(x, a), Scale(y, b), c);
    DotScale(x, a, c);
    DotScale(y, b, c);
  }

  lemma {:induction false} DotCommutes(a: seq<int>, b: seq<int>)
    requires |a| == |b|
    ensures Dot(a, b) == Dot(b, a)
  {
    Dots();
    Products();
    if |a| > 0 {
      DotCommutes(a[..|a| - 1], b[..|a| - 1]);
    }
  }

  // Moving a factor from one side of an inner product to the other.
  lemma {:induction false} DotHadamard(a: seq<int>, f: seq<int>, b: seq<int>)
    requires |a| == |f| == |b|
    ensures Red(Dot(Hadamard(a, f), b)) == Red(Dot(a, Hadamard(f, b)))
  {
    Dots();
    if |a| > 0 {
      var n := |a| - 1;
      DotHadamard(a[..n], f[..n], b[..n]);
      assert Hadamard(a, f)[..n] == Hadamard(a[..n], f[..n]);
      assert Hadamard(f, b)[..n] == Hadamard(f[..n], b[..n]);
      MulAssociates(a[n], f[n], b[n]);
      RedAdd(Dot(Hadamard(a, f)[..n], b[..n]), Dot(a[..n], Hadamard(f, b)[..n]),
             Times(Hadamard(a, f)[n], b[n]), Times(a[n], Hadamard(f, b)[n]));
    }
  }

  lemma ReducedSame(a: seq<int>)
    ensures Same(Reduced(a), a)
  {
    forall i | 0 <= i < |a|
      ensures Red(Reduced(a)[i]) == Red(a[i])
    {
    }
  }
}
