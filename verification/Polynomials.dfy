// Polynomials with integer coefficients in ascending degree order, read modulo
// the group order: a polynomial with at most `n` coefficients is determined by its
// values at `n` distinct points, and Lagrange's formula recovers it.
module Polynomials {
  import opened Scalars
  import opened Vectors

  function Horner(f: seq<int>, x: int): int {
    if |f| == 0 then 0 else f[0] + Times(x, Horner(f[1..], x))
  }

  // Folded like products and remainders: a proof unrolls it with `Evals`.
  function FoldedEval(f: seq<int>, x: int, n: nat): int
    decreases n
  {
    if n == 0 then Horner(f, x) else FoldedEval(f, x, n - 1)
  }

  // f at x
  function Eval(f: seq<int>, x: int): int {
    FoldedEval(f, x, q)
  }

  lemma UnfoldEval(f: seq<int>, x: int, n: nat)
    ensures FoldedEval(f, x, n) == Horner(f, x)
    decreases n
  {
  }

  lemma Evals()
    ensures forall f: seq<int>, x: int :: Eval(f, x) == Horner(f, x)
  {
    forall f: seq<int>, x: int
      ensures Eval(f, x) == Horner(f, x)
    {
      UnfoldEval(f, x, q);
    }
  }

  function Values(f: seq<int>, xs: seq<int>): (r: seq<int>)
    ensures |r| == |xs|
  {
    seq(|xs|, i requires 0 <= i < |xs| => Eval(f, xs[i]))
  }

  // Pairwise distinct as field points.
  predicate DistinctPoints(xs: seq<int>) {
    forall i, j :: 0 <= i < j < |xs| ==> Red(xs[i]) != Red(xs[j])
  }

  // ----- values determine the polynomial -----

  // The quotient of `f - f(r)` by `x - r`.
  function Deflate(f: seq<int>, r: int): (g: seq<int>)
    ensures |f| > 0 ==> |g| == |f| - 1
    ensures |f| == 0 ==> |g| == 0
  {
    if |f| <= 1 then [] else [Eval(f[1..], r)] + Deflate(f[1..], r)
  }

  lemma {:induction false} DeflateLaw(f: seq<int>, r: int, x: int)
    ensures Eval(f, x) == Eval(f, r) + Times(x - r, Eval(Deflate(f, r), x))
  {
    Evals();
    Products();
    if |f| == 1 {
      assert Eval(f[1..], x) == 0 && Eval(f[1..], r) == 0;
    } else if |f| > 1 {
      var t := f[1..];
      DeflateLaw(t, r, x);
      var d := Deflate(t, r);
      assert ([Eval(t, r)] + d)[1..] == d;
      DeflateStep(f[0], x, r, Eval(t, x), Eval(t, r), Eval(d, x));
    }
  }

  lemma DeflateStep(c: int, x: int, r: int, tx: int, tr: int, d: int)
    requires tx == tr + (x - r) * d
    ensures c + x * tx == c + r * tr + (x - r) * (tr + x * d)
  {
    assert x * tx == x * tr + x * ((x - r) * d);
  }

  // Two polynomials with at most |xs| coefficients that agree at the distinct
  // points xs agree everywhere.
  lemma {:induction false} ValuesDetermine(f: seq<int>, g: seq<int>, xs: seq<int>, z: int)
    requires |f| <= |xs| && |g| <= |xs| && DistinctPoints(xs)
    requires forall i :: 0 <= i < |xs| ==> Red(Eval(f, xs[i])) == Red(Eval(g, xs[i]))
    ensures Red(Eval(f, z)) == Red(Eval(g, z))
    decreases |xs|
  {
    if |xs| > 0 {
      var r, rest := xs[0], xs[1..];
      var f', g' := Deflate(f, r), Deflate(g, r);
      forall i | 0 <= i < |rest|
        ensures Red(Eval(f', rest[i])) == Red(Eval(g', rest[i]))
      {
        DeflatedAgree(f, g, r, xs[i + 1]);
      }
      ValuesDetermine(f', g', rest, z);
      DeflateLaw(f, r, z);
      DeflateLaw(g, r, z);
      RedMul(z - r, z - r, Eval(f', z), Eval(g', z));
      RedAdd(Eval(f, r), Eval(g, r), Times(z - r, Eval(f', z)), Times(z - r, Eval(g', z)));
    }
  }

  lemma DeflatedAgree(f: seq<int>, g: seq<int>, r: int, x: int)
    requires Red(r) != Red(x)
    requires Red(Eval(f, r)) == Red(Eval(g, r)) && Red(Eval(f, x)) == Red(Eval(g, x))
    ensures Red(Eval(Deflate(f, r), x)) == Red(Eval(Deflate(g, r), x))
  {
    DeflateLaw(f, r, x);
    DeflateLaw(g, r, x);
    RedSub(Eval(f, x), Eval(g, x), Eval(f, r), Eval(g, r));
    DifferenceNonzero(x, r);
    CancelFactor(x - r, Eval(Deflate(f, r), x), Eval(Deflate(g, r), x));
  }

  lemma DifferenceNonzero(x: int, y: int)
    requires Red(x) != Red(y)
    ensures Red(x - y) != 0
  {
    if Red(x - y) == 0 {
      RedAdd(x - y, 0, y, y);
    }
  }

  // ----- Lagrange interpolation -----

  // prod over j < n, j != i of (z - xs[j])
  function ProductSkip(xs: seq<int>, i: int, z: int, n: nat): int
    requires n <= |xs|
  {
    if n == 0 then 1
    else if n - 1 == i then ProductSkip(xs, i, z, n - 1)
    else Times(ProductSkip(xs, i, z, n - 1), z - xs[n - 1])
  }

  function Numerator(xs: seq<int>, i: nat, z: int): int
    requires i < |xs|
  {
    ProductSkip(xs, i, z, |xs|)
  }

  function Denominator(xs: seq<int>, i: nat): int
    requires i < |xs|
  {
    ProductSkip(xs, i, xs[i], |xs|)
  }

  // The Lagrange coefficient of node i at z.
  function Lambda(xs: seq<int>, i: nat, z: int): Scalar
    requires i < |xs|
  {
    Red(Times(Numerator(xs, i, z), Inverse(Red(Denominator(xs, i)))))
  }

  lemma LambdaFromProducts(xs: seq<int>, i: nat, x: int)
    requires i < |xs|
    ensures Mul(Red(Numerator(xs, i, x)), Inverse(Red(Denominator(xs, i)))) == Lambda(xs, i, x)
  {
    var p, w := Numerator(xs, i, x), Inverse(Red(Denominator(xs, i)));
    RedMul(Red(p), p, w, w);
  }

  function Basis(xs: seq<int>, z: int): (r: seq<Scalar>)
    ensures |r| == |xs|
  {
    seq(|xs|, i requires 0 <= i < |xs| => Lambda(xs, i, z))
  }

  lemma {:induction false} ProductSkipNonzero(xs: seq<int>, i: nat, n: nat)
    requires i < |xs| && n <= |xs| && DistinctPoints(xs)
    ensures Red(ProductSkip(xs, i, xs[i], n)) != 0
  {
    if n == 0 {
    } else {
      ProductSkipNonzero(xs, i, n - 1);
      if n - 1 != i {
        DifferenceNonzero(xs[i], xs[n - 1]);
        if Red(ProductSkip(xs, i, xs[i], n)) == 0 {
          NoZeroDivisors(ProductSkip(xs, i, xs[i], n - 1), xs[i] - xs[n - 1]);
        }
      }
    }
  }

  // A node other than i is a root of node i's product.
  lemma {:induction false} ProductSkipRoot(xs: seq<int>, i: nat, k: nat, n: nat)
    requires k < n <= |xs| && k != i
    ensures ProductSkip(xs, i, xs[k], n) == 0
  {
    if n - 1 != k {
      ProductSkipRoot(xs, i, k, n - 1);
      TimesUnits(xs[k] - xs[n - 1]);
    } else {
      TimesUnits(ProductSkip(xs, i, xs[k], n - 1));
    }
  }

  lemma LambdaAtNode(xs: seq<int>, i: nat, k: nat)
    requires i < |xs| && k < |xs| && DistinctPoints(xs)
    ensures Lambda(xs, i, xs[k]) == if i == k then Red(1) else 0
  {
    if i == k {
      var d := Denominator(xs, i);
      ProductSkipNonzero(xs, i, |xs|);
      InverseLaw(Red(d));
      RedMul(d, Red(d), Inverse(Red(d)), Inverse(Red(d)));
    } else {
      ProductSkipRoot(xs, i, k, |xs|);
      TimesUnits(Inverse(Red(Denominator(xs, i))));
    }
  }

  // Two factors of the zero-index vector: Dot with a unit vector.
  lemma {:induction false} DotBasisAtNode(ys: seq<int>, xs: seq<int>, k: nat, n: nat)
    requires |ys| == |xs| && k < |xs| && n <= |xs| && DistinctPoints(xs)
    ensures Red(Dot(ys[..n], Basis(xs, xs[k])[..n])) == if k < n then Red(ys[k]) else 0
  {
    if n == 0 {
      DotEnds(ys, Basis(xs, xs[k]));
    } else {
      var b := Basis(xs, xs[k]);
      DotBasisAtNode(ys, xs, k, n - 1);
      LambdaAtNode(xs, n - 1, k);
      DotPrefix(ys, b, n - 1);
      var d := Dot(ys[..n - 1], b[..n - 1]);
      if k == n - 1 {
        TimesUnits(ys[k]);
        RedAdd(d, 0, Times(ys[k], Red(1)), ys[k]);
      } else {
        TimesUnits(ys[n - 1]);
      }
    }
  }

  // ----- the interpolating polynomial, by coefficients -----

  // (x - r) * f
  function MulLinear(f: seq<int>, r: int): (g: seq<int>)
    ensures |g| == |f| + 1
  {
    Plus([0] + f, Scale(-r, f) + [0])
  }

  lemma {:induction false} EvalPlus(f: seq<int>, g: seq<int>, x: int)
    requires |f| == |g|
    ensures Eval(Plus(f, g), x) == Eval(f, x) + Eval(g, x)
  {
    Evals();
    if |f| > 0 {
      EvalPlus(f[1..], g[1..], x);
      TimesDistributes(x, Eval(f[1..], x), Eval(g[1..], x));
      assert Plus(f, g)[1..] == Plus(f[1..], g[1..]);
    }
  }

  lemma {:induction false} EvalScale(c: int, f: seq<int>, x: int)
    ensures Eval(Scale(c, f), x) == Times(c, Eval(f, x))
  {
    Evals();
    if |f| > 0 {
      EvalScale(c, f[1..], x);
      assert Scale(c, f)[1..] == Scale(c, f[1..]);
      TimesReassociate(x, c, Eval(f[1..], x));
      TimesAssociates(c, x, Eval(f[1..], x));
      TimesDistributes(c, f[0], Times(x, Eval(f[1..], x)));
    } else {
      TimesUnits(c);
    }
  }

  lemma {:induction false} EvalPad(f: seq<int>, x: int)
    ensures Eval(f + [0], x) == Eval(f, x)
  {
    Evals();
    if |f| > 0 {
      EvalPad(f[1..], x);
      assert (f + [0])[1..] == f[1..] + [0];
    } else {
      assert (f + [0])[1..] == [];
      TimesUnits(x);
    }
  }

  lemma EvalMulLinear(f: seq<int>, r: int, x: int)
    ensures Eval(MulLinear(f, r), x) == Times(Eval(f, x), x - r)
  {
    Evals();
    EvalPlus([0] + f, Scale(-r, f) + [0], x);
    EvalPad(Scale(-r, f), x);
    EvalScale(-r, f, x);
    assert ([0] + f)[1..] == f;
    var e := Eval(f, x);
    TimesDistributes(e, x, -r);
    TimesCommutes(e, x - r);
    assert Eval([0] + f, x) == Times(x, e);
    assert x + -r == x - r;
  }

  // The coefficients of ProductSkip in z.
  function ProductSkipPoly(xs: seq<int>, i: int, n: nat): (f: seq<int>)
    requires n <= |xs|
    ensures |f| == if 0 <= i < n then n else n + 1
  {
    if n == 0 then [1]
    else if n - 1 == i then ProductSkipPoly(xs, i, n - 1)
    else MulLinear(ProductSkipPoly(xs, i, n - 1), xs[n - 1])
  }

  lemma EvalConstant(c: int, x: int)
    ensures Eval([c], x) == c
  {
    Evals();
    assert Eval([c][1..], x) == 0;
    TimesUnits(x);
  }

  lemma {:induction false} EvalProductSkip(xs: seq<int>, i: int, n: nat, z: int)
    requires n <= |xs|
    ensures Eval(ProductSkipPoly(xs, i, n), z) == ProductSkip(xs, i, z, n)
  {
    if n == 0 {
      EvalConstant(1, z);
    } else {
      EvalProductSkip(xs, i, n - 1, z);
      if n - 1 != i {
        var f := ProductSkipPoly(xs, i, n - 1);
        EvalMulLinear(f, xs[n - 1], z);
        assert ProductSkipPoly(xs, i, n) == MulLinear(f, xs[n - 1]);
      }
    }
  }

  // ys[i] * lambda_i, as coefficients
  function TermPoly(xs: seq<int>, ys: seq<int>, i: nat): (f: seq<int>)
    requires i < |xs| == |ys|
    ensures |f| == |xs|
  {
    Scale(Times(ys[i], Inverse(Red(Denominator(xs, i)))), ProductSkipPoly(xs, i, |xs|))
  }

  // sum over i < n of ys[i] * lambda_i
  function InterpolantTo(xs: seq<int>, ys: seq<int>, n: nat): (f: seq<int>)
    requires |xs| == |ys| && n <= |xs|
    ensures |f| == |xs|
  {
    if n == 0 then Scale(0, xs) else Plus(InterpolantTo(xs, ys, n - 1), TermPoly(xs, ys, n - 1))
  }

  function Interpolant(xs: seq<int>, ys: seq<int>): (f: seq<int>)
    requires |xs| == |ys|
    ensures |f| == |xs|
  {
    InterpolantTo(xs, ys, |xs|)
  }

  lemma {:induction false} EvalInterpolantTo(xs: seq<int>, ys: seq<int>, n: nat, z: int)
    requires |xs| == |ys| && n <= |xs|
    ensures Red(Eval(InterpolantTo(xs, ys, n), z)) == Red(Dot(ys[..n], Basis(xs, z)[..n]))
  {
    var b := Basis(xs, z);
    if n == 0 {
      EvalScale(0, xs, z);
      DotEnds(ys, b);
      TimesUnits(Eval(xs, z));
    } else {
      var i := n - 1;
      EvalInterpolantTo(xs, ys, i, z);
      DotPrefix(ys, b, i);
      EvalTerm(xs, ys, i, z);
      EvalPlus(InterpolantTo(xs, ys, i), TermPoly(xs, ys, i), z);
      RedAdd(Eval(InterpolantTo(xs, ys, i), z), Dot(ys[..i], b[..i]), Eval(TermPoly(xs, ys, i), z), Times(ys[i], b[i]));
    }
  }

  lemma EvalTerm(xs: seq<int>, ys: seq<int>, i: nat, z: int)
    requires i < |xs| == |ys|
    ensures Red(Eval(TermPoly(xs, ys, i), z)) == Red(Times(ys[i], Lambda(xs, i, z)))
  {
    var w := Inverse(Red(Denominator(xs, i)));
    EvalScale(Times(ys[i], w), ProductSkipPoly(xs, i, |xs|), z);
    EvalProductSkip(xs, i, |xs|, z);
    ReorderTerm(ys[i], w, Numerator(xs, i, z));
  }

  lemma ReorderTerm(y: int, w: int, p: int)
    ensures Red(Times(Times(y, w), p)) == Red(Times(y, Red(Times(p, w))))
  {
    TimesAssociates(y, w, p);
    TimesCommutes(w, p);
    MulAssociates(y, w, p);
  }

  // Lagrange's formula is the value of the interpolant at every z.
  lemma EvalInterpolant(xs: seq<int>, ys: seq<int>, z: int)
    requires |xs| == |ys|
    ensures Red(Eval(Interpolant(xs, ys), z)) == Red(Dot(ys, Basis(xs, z)))
  {
    EvalInterpolantTo(xs, ys, |xs|, z);
    DotEnds(ys, Basis(xs, z));
  }

  // Some polynomial with |xs| coefficients takes the values ys at the points xs.
  lemma InterpolantFits(xs: seq<int>, ys: seq<int>, k: nat)
    requires |xs| == |ys| && k < |xs| && DistinctPoints(xs)
    ensures Red(Eval(Interpolant(xs, ys), xs[k])) == Red(ys[k])
  {
    EvalInterpolant(xs, ys, xs[k]);
    DotBasisAtNode(ys, xs, k, |xs|);
    var b := Basis(xs, xs[k]);
    DotEnds(ys, b);
  }

  // Interpolating the values of f at |xs| >= |f| distinct points gives f(z).
  lemma LagrangeRecovers(f: seq<int>, xs: seq<int>, ys: seq<int>, z: int)
    requires |f| <= |xs| == |ys| && DistinctPoints(xs) && Same(ys, Values(f, xs))
    ensures Red(Dot(ys, Basis(xs, z))) == Red(Eval(f, z))
  {
    forall k | 0 <= k < |xs|
      ensures Red(Eval(Interpolant(xs, ys), xs[k])) == Red(Eval(f, xs[k]))
    {
      InterpolantFits(xs, ys, k);
    }
    ValuesDetermine(Interpolant(xs, ys), f, xs, z);
    EvalInterpolant(xs, ys, z);
  }

  // Evaluation reads arguments and coefficients modulo q only.
  lemma {:induction false} EvalSame(f: seq<int>, g: seq<int>, x: int, y: int)
    requires Same(f, g) && Red(x) == Red(y)
    ensures Red(Eval(f, x)) == Red(Eval(g, y))
  {
    Evals();
    if |f| > 0 {
      EvalSame(f[1..], g[1..], x, y);
      RedMul(x, y, Eval(f[1..], x), Eval(g[1..], y));
      RedAdd(f[0], g[0], Times(x, Eval(f[1..], x)), Times(y, Eval(g[1..], y)));
    }
  }

  lemma EvalAtZero(f: seq<int>)
    requires |f| > 0
    ensures Eval(f, 0) == f[0]
  {
    Evals();
    TimesUnits(Eval(f[1..], 0));
  }
}
