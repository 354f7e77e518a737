// Shamir secret sharing: shamir.rs.
module Shamir {
  import opened Wrappers
  import opened Scalars
  import opened Vectors
  import opened Polynomials
  import opened Core

  // ----- evaluation -----

  // Horner's rule from the highest coefficient.
  method EvaluateAtScalar(coefficients: seq<Scalar>, x: Scalar) returns (result: Scalar)
    ensures result == Red(Eval(coefficients, x))
  {
    Evals();
    result := 0;
    var i := |coefficients|;
    while i > 0
      invariant 0 <= i <= |coefficients|
      invariant result == Red(Eval(coefficients[i..], x))
    {
      i := i - 1;
      HornerStep(coefficients[i..], x);
      assert coefficients[i..][1..] == coefficients[i + 1..];
      result := Add(Mul(result, x), coefficients[i]);
    }
    assert coefficients[0..] == coefficients;
  }

  lemma HornerStep(f: seq<int>, x: int)
    requires |f| > 0
    ensures Red(Red(Times(Red(Eval(f[1..], x)), x)) + f[0]) == Red(Eval(f, x))
  {
    Evals();
    var e := Eval(f[1..], x);
    RedMul(Red(e), e, x, x);
    TimesCommutes(e, x);
    RedAdd(Red(Times(Red(e), x)), Times(x, e), f[0], f[0]);
  }

  // The share of participant p under the polynomial f.
  function Evaluate(f: seq<Scalar>, p: ParticipantIndex): Share {
    Share(p, Red(Eval(f, ToScalar(p))))
  }

  // ----- batch inversion -----

  function Product(a: seq<int>): int {
    if |a| == 0 then 1 else Times(Product(a[..|a| - 1]), a[|a| - 1])
  }

  lemma {:induction false} ProductIsZero(a: seq<Scalar>)
    ensures Red(Product(a)) == 0 <==> 0 in a
  {
    if |a| == 0 {
    } else {
      var n := |a| - 1;
      ProductIsZero(a[..n]);
      assert a == a[..n] + [a[n]];
      TimesUnits(Product(a[..n]));
      if Red(Product(a)) == 0 {
        NoZeroDivisors(Product(a[..n]), a[n]);
      } else if Red(Product(a[..n])) == 0 {
        RedMul(Product(a[..n]), 0, a[n], a[n]);
        TimesUnits(a[n]);
      }
    }
  }

  lemma InverseUnique(x: Scalar, y: Scalar)
    requires Red(Times(x, y)) == 1
    ensures x != 0 && y == Inverse(x)
  {
    TimesUnits(y);
    InverseLaw(x);
    CancelFactor(x, y, Inverse(x));
  }

  lemma MulStep(x: int, y: Scalar, z: Scalar, p: int)
    requires Red(z) == Red(p)
    ensures Red(Times(x, Mul(y, z))) == Red(Times(Mul(y, z), x)) == Red(Times(y, Times(p, x)))
  {
    RedMul(y, y, z, p);
    RedMul(Mul(y, z), Times(y, p), x, x);
    TimesAssociates(y, p, x);
    TimesCommutes(x, Mul(y, z));
  }

  // One backward step of the Montgomery trick.
  lemma InvertStep(v: Scalar, accInv: Scalar, prefix: Scalar, p: int)
    requires Red(prefix) == Red(p) && Red(Times(accInv, Times(p, v))) == 1
    ensures v != 0 && Mul(accInv, prefix) == Inverse(v)
    ensures Red(Times(Mul(accInv, v), p)) == 1
  {
    MulStep(v, accInv, prefix, p);
    MulStep(p, accInv, v, v);
    TimesCommutes(p, v);
    InverseUnique(v, Mul(accInv, prefix));
  }

  lemma PrefixStep(a: seq<Scalar>, i: nat)
    requires i < |a|
    ensures Mul(Red(Product(a[..i])), a[i]) == Red(Product(a[..i + 1]))
  {
    assert a[..i + 1][..i] == a[..i];
    RedMul(Red(Product(a[..i])), Product(a[..i]), a[i], a[i]);
  }

  // x is the inverse of the product of the first i entries.
  predicate InvertsPrefix(x: Scalar, a: seq<Scalar>, i: nat)
    requires i <= |a|
  {
    Red(Times(x, Product(a[..i]))) == 1
  }

  lemma InvertsAll(a: seq<Scalar>)
    requires Red(Product(a)) != 0
    ensures InvertsPrefix(Inverse(Red(Product(a))), a, |a|)
  {
    var acc := Red(Product(a));
    assert a[..|a|] == a;
    InverseLaw(acc);
    RedMul(Inverse(acc), Inverse(acc), acc, Product(a));
    TimesCommutes(acc, Inverse(acc));
  }

  lemma InvertPrefixStep(a: seq<Scalar>, i: nat, accInv: Scalar)
    requires i < |a| && InvertsPrefix(accInv, a, i + 1)
    ensures a[i] != 0 && Mul(accInv, Red(Product(a[..i]))) == Inverse(a[i])
    ensures InvertsPrefix(Mul(accInv, a[i]), a, i)
  {
    assert a[..i + 1][..i] == a[..i];
    InvertStep(a[i], accInv, Red(Product(a[..i])), Product(a[..i]));
  }

  // Every entry becomes its inverse, with one field inversion, exactly when no
  // entry is zero; otherwise the slice is left as it was.
  method BatchInvert(values: array<Scalar>) returns (r: Option<()>)
    modifies values
    ensures r.Some? <==> 0 !in old(values[..])
    ensures r.Some? ==> forall i :: 0 <= i < values.Length ==> values[i] == Inverse(old(values[i]))
    ensures r.None? ==> values[..] == old(values[..])
  {
    if values.Length == 0 {
      return Some(());
    }
    ghost var was := values[..];
    var prefix: seq<Scalar> := [];
    var acc: Scalar := Red(1);
    for i := 0 to values.Length
      invariant |prefix| == i && values[..] == was
      invariant acc == Red(Product(was[..i]))
      invariant forall k :: 0 <= k < i ==> prefix[k] == Red(Product(was[..k]))
    {
      PrefixStep(was, i);
      prefix := prefix + [acc];
      acc := Mul(acc, values[i]);
    }
    assert was[..values.Length] == was;
    ProductIsZero(was);
    var inverted := Invert(acc);
    if inverted.None? {
      return None;
    }
    var accInv := inverted.value;
    InvertsAll(was);
    var i := values.Length;
    while i > 0
      invariant 0 <= i <= values.Length
      invariant InvertsPrefix(accInv, was, i)
      invariant forall k :: 0 <= k < i ==> values[k] == was[k]
      invariant forall k :: i <= k < values.Length ==> values[k] == Inverse(was[k])
    {
      i := i - 1;
      InvertPrefixStep(was, i, accInv);
      var inverse := Mul(accInv, prefix[i]);
      accInv := Mul(accInv, values[i]);
      values[i] := inverse;
    }
    r := Some(());
  }

  // ----- Lagrange coefficients at zero -----

  // Some denominator vanishes exactly when two nodes are the same field point.
  lemma DenominatorsNonzero(xs: seq<int>)
    ensures DistinctPoints(xs) <==> forall i :: 0 <= i < |xs| ==> Red(Denominator(xs, i)) != 0
  {
    if DistinctPoints(xs) {
      forall i | 0 <= i < |xs|
        ensures Red(Denominator(xs, i)) != 0
      {
        ProductSkipNonzero(xs, i, |xs|);
      }
    } else {
      var i, j :| 0 <= i < j < |xs| && Red(xs[i]) == Red(xs[j]);
      ProductSkipVanishes(xs, i, j, |xs|);
      assert Red(Denominator(xs, i)) == 0;
    }
  }

  lemma {:induction false} ProductSkipVanishes(xs: seq<int>, i: nat, k: nat, n: nat)
    requires i < |xs| && k < n <= |xs| && k != i && Red(xs[i]) == Red(xs[k])
    ensures Red(ProductSkip(xs, i, xs[i], n)) == 0
  {
    if n - 1 == k {
      RedSub(xs[i], xs[i], xs[k], xs[i]);
      var p := ProductSkip(xs, i, xs[i], n - 1);
      RedMul(p, p, xs[i] - xs[k], 0);
      TimesUnits(p);
    } else {
      ProductSkipVanishes(xs, i, k, n - 1);
      if n - 1 != i {
        RedMul(ProductSkip(xs, i, xs[i], n - 1), 0, xs[i] - xs[n - 1], xs[i] - xs[n - 1]);
        TimesUnits(xs[i] - xs[n - 1]);
      }
    }
  }

  function CoefficientsAtZero(xs: seq<Scalar>): Result<seq<Scalar>, Error> {
    if DistinctPoints(xs) then Ok(Basis(xs, 0)) else Err(NonInvertibleDenominator)
  }

  // One factor of a running product over the nodes.
  lemma ProductSkipStep(xs: seq<int>, i: nat, z: int, j: nat)
    requires j < |xs|
    ensures Red(ProductSkip(xs, i, z, j + 1)) ==
      if i == j then Red(ProductSkip(xs, i, z, j)) else Mul(Red(ProductSkip(xs, i, z, j)), Red(z - xs[j]))
  {
    var p := ProductSkip(xs, i, z, j);
    RedMul(Red(p), p, Red(z - xs[j]), z - xs[j]);
  }

  // The products of one node, by the inner loop.
  method NodeProducts(xs: seq<Scalar>, i: nat) returns (numerator: Scalar, denominator: Scalar)
    requires i < |xs|
    ensures numerator == Red(Numerator(xs, i, 0))
    ensures denominator == Red(Denominator(xs, i))
  {
    numerator, denominator := Red(1), Red(1);
    for j := 0 to |xs|
      invariant numerator == Red(ProductSkip(xs, i, 0, j))
      invariant denominator == Red(ProductSkip(xs, i, xs[i], j))
    {
      ProductSkipStep(xs, i, 0, j);
      ProductSkipStep(xs, i, xs[i], j);
      if i != j {
        numerator := Mul(numerator, Neg(xs[j]));
        denominator := Mul(denominator, Sub(xs[i], xs[j]));
      }
    }
  }

  method LagrangeCoefficientsAtZero(xs: seq<Scalar>) returns (r: Result<seq<Scalar>, Error>)
    ensures r == CoefficientsAtZero(xs)
  {
    var n := |xs|;
    var numerators: seq<Scalar> := [];
    var denominators := new Scalar[n];
    for i := 0 to n
      invariant |numerators| == i
      invariant forall k :: 0 <= k < i ==> numerators[k] == Red(Numerator(xs, k, 0))
      invariant forall k :: 0 <= k < i ==> denominators[k] == Red(Denominator(xs, k))
    {
      var numerator, denominator := NodeProducts(xs, i);
      numerators := numerators + [numerator];
      denominators[i] := denominator;
    }
    ghost var was := denominators[..];
    var inverted := BatchInvert(denominators);
    DenominatorsNonzero(xs);
    assert inverted.Some? <==> DistinctPoints(xs) by {
      if 0 in was {
        var k :| 0 <= k < n && was[k] == 0;
        assert Red(Denominator(xs, k)) == 0;
      } else {
        forall k | 0 <= k < n
          ensures Red(Denominator(xs, k)) != 0
        {
          assert was[k] in was;
        }
      }
    }
    if inverted.None? {
      return Err(NonInvertibleDenominator);
    }
    var coefficients: seq<Scalar> := [];
    for i := 0 to n
      invariant |coefficients| == i
      invariant forall k :: 0 <= k < n ==> denominators[k] == Inverse(Red(Denominator(xs, k)))
      invariant forall k :: 0 <= k < i ==> coefficients[k] == Lambda(xs, k, 0)
    {
      LambdaFromProducts(xs, i, 0);
      coefficients := coefficients + [Mul(numerators[i], denominators[i])];
    }
    assert coefficients == Basis(xs, 0);
    r := Ok(coefficients);
  }

  // ----- reconstruction -----

  predicate Unique(ps: seq<int>) {
    forall i, j :: 0 <= i < j < |ps| ==> ps[i] != ps[j]
  }

  // The first participant at or after position i that is listed a second time.
  function FirstRepeat(ps: seq<int>, i: nat): Option<int>
    requires i <= |ps|
    decreases |ps| - i
  {
    if i == |ps| then None
    else if ps[i] in ps[..i] then Some(ps[i])
    else FirstRepeat(ps, i + 1)
  }

  lemma {:induction false} FirstRepeatIsFirst(ps: seq<int>, i: nat)
    requires i <= |ps| && Unique(ps[..i])
    ensures FirstRepeat(ps, i).None? <==> Unique(ps)
    ensures FirstRepeat(ps, i).Some? ==>
      exists j :: i <= j < |ps| && FirstRepeat(ps, i) == Some(ps[j]) && ps[j] in ps[..j] && Unique(ps[..j])
    decreases |ps| - i
  {
    if i == |ps| {
      assert ps[..i] == ps;
    } else if ps[i] !in ps[..i] {
      assert Unique(ps[..i + 1]) by {
        assert ps[..i + 1] == ps[..i] + [ps[i]];
      }
      FirstRepeatIsFirst(ps, i + 1);
    } else {
      var k :| 0 <= k < i && ps[k] == ps[i];
    }
  }

  method EnsureUniqueParticipants(ps: seq<int>) returns (r: Option<Error>)
    ensures r == match FirstRepeat(ps, 0) case None => None case Some(p) => Some(DuplicateParticipantIndex(p))
    ensures r.None? <==> Unique(ps)
  {
    FirstRepeatIsFirst(ps, 0);
    var seen: set<int> := {};
    for i := 0 to |ps|
      invariant FirstRepeat(ps, 0) == FirstRepeat(ps, i)
      invariant seen == set p | p in ps[..i]
    {
      if ps[i] in seen {
        return Some(DuplicateParticipantIndex(ps[i]));
      }
      assert ps[..i + 1] == ps[..i] + [ps[i]];
      seen := seen + {ps[i]};
    }
    r := None;
  }

  function Participants(shares: seq<Share>): (r: seq<ParticipantIndex>)
    ensures |r| == |shares|
  {
    seq(|shares|, i requires 0 <= i < |shares| => shares[i].participant)
  }

  function Points(ps: seq<ParticipantIndex>): (r: seq<Scalar>)
    ensures |r| == |ps|
  {
    seq(|ps|, i requires 0 <= i < |ps| => ToScalar(ps[i]))
  }

  function ShareValues(shares: seq<Share>): (r: seq<Scalar>)
    ensures |r| == |shares|
  {
    seq(|shares|, i requires 0 <= i < |shares| => shares[i].value)
  }

  // A participant's interpolation point. The field may refuse an index.
  type Conversion = ParticipantIndex -> Result<Scalar, Error>

  // Reduction modulo the group order, which refuses nothing.
  function Reducing(p: ParticipantIndex): Result<Scalar, Error> {
    Ok(ToScalar(p))
  }

  predicate AllConvert(convert: Conversion, ps: seq<ParticipantIndex>) {
    forall i :: 0 <= i < |ps| ==> convert(ps[i]).Ok?
  }

  function Converted(convert: Conversion, ps: seq<ParticipantIndex>): (r: seq<Scalar>)
    requires AllConvert(convert, ps)
    ensures |r| == |ps|
  {
    seq(|ps|, i requires 0 <= i < |ps| => convert(ps[i]).value)
  }

  // The error of the first participant at or after position i that does not convert.
  function FirstRefused(convert: Conversion, ps: seq<ParticipantIndex>, i: nat): (e: Option<Error>)
    requires i <= |ps|
    ensures e.None? <==> forall j :: i <= j < |ps| ==> convert(ps[j]).Ok?
    decreases |ps| - i
  {
    if i == |ps| then None
    else if convert(ps[i]).Err? then Some(convert(ps[i]).error)
    else FirstRefused(convert, ps, i + 1)
  }

  // What interpolating the shares at zero returns, every error included.
  function InterpolatedAtZero(convert: Conversion, shares: seq<Share>): Result<Scalar, Error> {
    var ps := Participants(shares);
    if shares == [] then Err(InvalidThreshold(0, 0))
    else if FirstRepeat(ps, 0).Some? then Err(DuplicateParticipantIndex(FirstRepeat(ps, 0).value))
    else if FirstRefused(convert, ps, 0).Some? then Err(FirstRefused(convert, ps, 0).value)
    else if !DistinctPoints(Converted(convert, ps)) then Err(NonInvertibleDenominator)
    else Ok(Red(Dot(ShareValues(shares), Basis(Converted(convert, ps), 0))))
  }

  function Reconstructed(convert: Conversion, shares: seq<Share>, threshold: nat): Result<Scalar, Error> {
    if threshold == 0 || |shares| < threshold then Err(InvalidThreshold(threshold, |shares|))
    else InterpolatedAtZero(convert, shares)
  }

  method InterpolationPoints(convert: Conversion, ps: seq<ParticipantIndex>) returns (r: Result<seq<Scalar>, Error>)
    ensures r.Ok? <==> AllConvert(convert, ps)
    ensures r.Ok? ==> r.value == Converted(convert, ps)
    ensures r.Err? ==> FirstRefused(convert, ps, 0) == Some(r.error)
  {
    var xs: seq<Scalar> := [];
    for i := 0 to |ps|
      invariant AllConvert(convert, ps[..i]) && xs == Converted(convert, ps[..i])
      invariant FirstRefused(convert, ps, 0) == FirstRefused(convert, ps, i)
    {
      var x := convert(ps[i]);
      if x.Err? {
        return Err(x.error);
      }
      xs := xs + [x.value];
    }
    assert ps[..|ps|] == ps;
    r := Ok(xs);
  }

  method LagrangeInterpolateAtZero(convert: Conversion, shares: seq<Share>) returns (r: Result<Scalar, Error>)
    ensures r == InterpolatedAtZero(convert, shares)
  {
    if shares == [] {
      return Err(InvalidThreshold(0, 0));
    }
    var ps := Participants(shares);
    var repeated := EnsureUniqueParticipants(ps);
    if repeated.Some? {
      return Err(repeated.value);
    }
    var xs :- InterpolationPoints(convert, ps);
    var coefficients :- LagrangeCoefficientsAtZero(xs);
    ghost var ys := ShareValues(shares);
    var result: Scalar := 0;
    DotEnds(ys, coefficients);
    for i := 0 to |shares|
      invariant result == Red(Dot(ys[..i], coefficients[..i]))
    {
      DotPrefix(ys, coefficients, i);
      AccumulateStep(Dot(ys[..i], coefficients[..i]), shares[i].value, coefficients[i]);
      result := Add(result, Mul(shares[i].value, coefficients[i]));
    }
    r := Ok(result);
  }

  lemma AccumulateStep(sum: int, x: int, y: int)
    ensures Red(Red(sum) + Red(Times(x, y))) == Red(sum + Times(x, y))
  {
    RedAdd(Red(sum), sum, Red(Times(x, y)), Times(x, y));
  }

  method ReconstructSecret(convert: Conversion, shares: seq<Share>, threshold: nat) returns (r: Result<Scalar, Error>)
    ensures r == Reconstructed(convert, shares, threshold)
  {
    if threshold == 0 || |shares| < threshold {
      return Err(InvalidThreshold(threshold, |shares|));
    }
    r := LagrangeInterpolateAtZero(convert, shares);
  }

  predicate EnoughShares(shares: seq<Share>, threshold: nat) {
    threshold > 0 && |shares| >= threshold
  }

  // When reconstruction succeeds, and which of its errors it gives exactly when.
  lemma ReconstructionOutcome(convert: Conversion, shares: seq<Share>, threshold: nat)
    ensures
      var r := Reconstructed(convert, shares, threshold);
      var ps := Participants(shares);
      && (r.Ok? <==> EnoughShares(shares, threshold) && Unique(ps) && AllConvert(convert, ps) && DistinctPoints(Converted(convert, ps)))
      && (!EnoughShares(shares, threshold) ==> r == Err(InvalidThreshold(threshold, |shares|)))
      && (EnoughShares(shares, threshold) && !Unique(ps) ==>
          exists j :: 0 <= j < |ps| && ps[j] in ps[..j] && Unique(ps[..j]) && r == Err(DuplicateParticipantIndex(ps[j])))
      && (EnoughShares(shares, threshold) && Unique(ps) && !AllConvert(convert, ps) ==>
          exists j :: 0 <= j < |ps| && convert(ps[j]).Err? && AllConvert(convert, ps[..j]) && r == Err(convert(ps[j]).error))
      && (EnoughShares(shares, threshold) && Unique(ps) && AllConvert(convert, ps) && !DistinctPoints(Converted(convert, ps)) ==>
          r == Err(NonInvertibleDenominator))
  {
    var ps := Participants(shares);
    FirstRepeatIsFirst(ps, 0);
    FirstRefusedIsFirst(convert, ps, 0);
  }

  lemma {:induction false} FirstRefusedIsFirst(convert: Conversion, ps: seq<ParticipantIndex>, i: nat)
    requires i <= |ps| && AllConvert(convert, ps[..i])
    ensures FirstRefused(convert, ps, i).Some? ==>
      exists j :: i <= j < |ps| && convert(ps[j]).Err? && AllConvert(convert, ps[..j]) && FirstRefused(convert, ps, i) == Some(convert(ps[j]).error)
    decreases |ps| - i
  {
    if i < |ps| && convert(ps[i]).Ok? {
      assert ps[..i + 1] == ps[..i] + [ps[i]];
      FirstRefusedIsFirst(convert, ps, i + 1);
    }
  }

  // ----- the sharing law -----

  // Every share is the polynomial's value at its participant's point.
  predicate OnPolynomial(convert: Conversion, shares: seq<Share>, f: seq<Scalar>)
    requires AllConvert(convert, Participants(shares))
  {
    forall i :: 0 <= i < |shares| ==> shares[i].value == Red(Eval(f, Converted(convert, Participants(shares))[i]))
  }

  // Any list of at least `threshold` shares of a polynomial with at most
  // `threshold` coefficients, at distinct field points, reconstructs f(0).
  lemma ReconstructionRecoversSecret(convert: Conversion, f: seq<Scalar>, threshold: nat, shares: seq<Share>)
    requires 0 < |f| <= threshold <= |shares| && AllConvert(convert, Participants(shares))
    requires OnPolynomial(convert, shares, f) && DistinctPoints(Converted(convert, Participants(shares)))
    ensures Reconstructed(convert, shares, threshold) == Ok(f[0])
  {
    var ps := Participants(shares);
    var xs, ys := Converted(convert, ps), ShareValues(shares);
    assert Unique(ps) by {
      forall i, j | 0 <= i < j < |ps|
        ensures ps[i] != ps[j]
      {
        assert Red(xs[i]) != Red(xs[j]);
      }
    }
    FirstRepeatIsFirst(ps, 0);
    forall i | 0 <= i < |ys|
      ensures Red(ys[i]) == Red(Values(f, xs)[i])
    {
      assert shares[i].value == Red(Eval(f, xs[i]));
    }
    LagrangeRecovers(f, xs, ys, 0);
    EvalAtZero(f);
  }

  // By reduction, the points are those of the participants.
  lemma ReducingConverts(ps: seq<ParticipantIndex>)
    ensures AllConvert(Reducing, ps) && Converted(Reducing, ps) == Points(ps)
  {
  }

  // A group order above every `u32` keeps distinct participants distinct.
  lemma LargeOrderSeparates(ps: seq<ParticipantIndex>)
    requires q >= 0x1_0000_0000 && Unique(ps)
    ensures DistinctPoints(Points(ps))
  {
    forall i, j | 0 <= i < j < |ps|
      ensures Red(Points(ps)[i]) != Red(Points(ps)[j])
    {
    }
  }
}
