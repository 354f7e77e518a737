// Vector folding, shared by the inner-product and linear arguments.
module Folding {
  import opened Scalars
  import opened Vectors

  function Low<T>(v: seq<T>): (r: seq<T>)
    ensures |r| == |v| / 2
  {
    v[..|v| / 2]
  }

  function High<T>(v: seq<T>): (r: seq<T>)
    requires |v| % 2 == 0
    ensures |r| == |v| / 2
  {
    v[|v| / 2..]
  }

  // c = <a, b>
  method ScalarProduct(a: seq<Scalar>, b: seq<Scalar>) returns (c: Scalar)
    requires |a| == |b|
    ensures c == Red(Dot(a, b))
  {
    c := 0;
    DotEnds(a, b);
    for i := 0 to |a|
      invariant c == Red(Dot(a[..i], b[..i]))
    {
      DotPrefix(a, b, i);
      RedAdd(c, Dot(a[..i], b[..i]), Mul(a[i], b[i]), Times(a[i], b[i]));
      c := Add(c, Mul(a[i], b[i]));
    }
  }

  // x * low half + y * high half, entry by entry.
  function Fold(v: seq<int>, x: int, y: int): (r: seq<Scalar>)
    requires |v| % 2 == 0
    ensures |r| == |v| / 2
  {
    Reduced(Plus(Scale(x, Low(v)), Scale(y, High(v))))
  }

  lemma SplitDot(a: seq<int>, b: seq<int>)
    requires |a| == |b| && |a| % 2 == 0
    ensures Dot(a, b) == Dot(Low(a), Low(b)) + Dot(High(a), High(b))
  {
    assert a == Low(a) + High(a) && b == Low(b) + High(b);
    DotConcat(Low(a), High(a), Low(b), High(b));
  }

  // Folding one operand distributes over the inner product.
  lemma DotFold(v: seq<int>, x: int, y: int, c: seq<int>)
    requires |v| % 2 == 0 && |c| == |v| / 2
    ensures Red(Dot(Fold(v, x, y), c)) == Red(Times(x, Dot(Low(v), c)) + Times(y, Dot(High(v), c)))
  {
    var exact := Plus(Scale(x, Low(v)), Scale(y, High(v)));
    ReducedSame(exact);
    DotSame(Fold(v, x, y), exact, c, c);
    DotCombination(x, Low(v), y, High(v), c);
  }

  // Folding both operands by coefficients inverse to each other keeps the diagonal
  // products and moves the cross products by the squares.
  lemma DotFolds(a: seq<int>, b: seq<int>, u: int, ui: int)
    requires |a| == |b| && |a| % 2 == 0 && Red(Times(u, ui)) == 1
    ensures Red(Dot(Fold(a, u, ui), Fold(b, ui, u))) ==
      Red(Dot(a, b) + Times(Times(u, u), Dot(Low(a), High(b))) + Times(Times(ui, ui), Dot(High(a), Low(b))))
  {
    DotFoldsByHalves(a, b, u, ui);
    SplitDot(a, b);
  }

  lemma DotFoldsByHalves(a: seq<int>, b: seq<int>, u: int, ui: int)
    requires |a| == |b| && |a| % 2 == 0 && Red(Times(u, ui)) == 1
    ensures Red(Dot(Fold(a, u, ui), Fold(b, ui, u))) ==
      Red(Dot(Low(a), Low(b)) + Dot(High(a), High(b))
        + Times(Times(u, u), Dot(Low(a), High(b))) + Times(Times(ui, ui), Dot(High(a), Low(b))))
  {
    DotFoldsExpanded(a, b, u, ui);
    CrossExpansion(u, ui, Dot(Low(a), Low(b)), Dot(Low(a), High(b)), Dot(High(a), Low(b)), Dot(High(a), High(b)));
  }

  lemma DotFoldsExpanded(a: seq<int>, b: seq<int>, u: int, ui: int)
    requires |a| == |b| && |a| % 2 == 0
    ensures Red(Dot(Fold(a, u, ui), Fold(b, ui, u))) ==
      Red(Times(u, Times(ui, Dot(Low(a), Low(b))) + Times(u, Dot(Low(a), High(b))))
        + Times(ui, Times(ui, Dot(High(a), Low(b))) + Times(u, Dot(High(a), High(b)))))
  {
    var b' := Fold(b, ui, u);
    DotFold(a, u, ui, b');
    FoldedCross(b, ui, u, Low(a));
    FoldedCross(b, ui, u, High(a));
    CombineHalves(u, ui,
      Dot(Low(a), b'), Times(ui, Dot(Low(a), Low(b))) + Times(u, Dot(Low(a), High(b))),
      Dot(High(a), b'), Times(ui, Dot(High(a), Low(b))) + Times(u, Dot(High(a), High(b))));
  }

  lemma CombineHalves(x: int, y: int, a: int, a': int, b: int, b': int)
    requires Red(a) == Red(a') && Red(b) == Red(b')
    ensures Red(Times(x, a) + Times(y, b)) == Red(Times(x, a') + Times(y, b'))
  {
    RedMul(x, x, a, a');
    RedMul(y, y, b, b');
    RedAdd(Times(x, a), Times(x, a'), Times(y, b), Times(y, b'));
  }

  lemma CrossExpansion(u: int, ui: int, ll: int, lh: int, hl: int, hh: int)
    requires Red(Times(u, ui)) == 1
    ensures Red(Times(u, Times(ui, ll) + Times(u, lh)) + Times(ui, Times(ui, hl) + Times(u, hh))) ==
      Red(ll + hh + Times(Times(u, u), lh) + Times(Times(ui, ui), hl))
  {
    TimesCommutes(u, ui);
    UnitTimes(u, ui, ll);
    UnitTimes(ui, u, hh);
    TimesDistributes(u, Times(ui, ll), Times(u, lh));
    TimesDistributes(ui, Times(ui, hl), Times(u, hh));
    TimesAssociates(u, u, lh);
    TimesAssociates(ui, ui, hl);
    var cross := Times(Times(u, u), lh) + Times(Times(ui, ui), hl);
    RedAdd(Times(u, Times(ui, ll)), ll, Times(ui, Times(u, hh)), hh);
    RedAdd(Times(u, Times(ui, ll)) + Times(ui, Times(u, hh)), ll + hh, cross, cross);
  }

  lemma FoldedCross(b: seq<int>, x: int, y: int, c: seq<int>)
    requires |b| % 2 == 0 && |c| == |b| / 2
    ensures Red(Dot(c, Fold(b, x, y))) == Red(Times(x, Dot(c, Low(b))) + Times(y, Dot(c, High(b))))
  {
    DotFold(b, x, y, c);
    DotCommutes(c, Fold(b, x, y));
    DotCommutes(c, Low(b));
    DotCommutes(c, High(b));
  }

  lemma UnitTimes(u: int, ui: int, x: int)
    requires Red(Times(u, ui)) == 1
    ensures Red(Times(u, Times(ui, x))) == Red(x)
  {
    TimesAssociates(u, ui, x);
    RedMul(Times(u, ui), 1, x, x);
    TimesUnits(x);
  }
}
