// Feldman commitments: feldman.rs, and the batched check of paper.rs.
module Feldman {
  import opened Wrappers
  import opened Bits
  import opened Scalars
  import opened Vectors
  import opened Polynomials
  import opened Core
  import opened Shamir

  // ----- small-scalar multiplication -----

  // Double-and-add from the highest set bit.
  method MulBySmallScalar(point: Element, scalar: nat) returns (acc: Element)
    ensures acc == Red(Times(scalar, point))
  {
    TimesUnits(point);
    if scalar == 0 {
      return Identity;
    }
    acc := Identity;
    var bit := NumBits(scalar);
    ShrNumBits(scalar);
    while bit > 0
      invariant 0 <= bit <= NumBits(scalar)
      invariant acc == Red(Times(Shr(scalar, bit), point))
    {
      bit := bit - 1;
      DoubleAndAddStep(Shr(scalar, bit), point);
      acc := ElementAdd(acc, acc);
      if Bit(scalar, bit) == 1 {
        acc := ElementAdd(acc, point);
      }
    }
  }

  lemma DoubleAndAddStep(n: nat, point: Element)
    ensures
      var half := Red(Times(n / 2, point));
      var doubled := ElementAdd(half, half);
      Red(Times(n, point)) == if n % 2 == 1 then ElementAdd(doubled, point) else doubled
  {
    var h := Times(n / 2, point);
    RedAdd(Red(h), h, Red(h), h);
    RedAdd(Red(h + h), h + h, point, point);
    SplitMultiple(n, point);
  }

  lemma SplitMultiple(n: nat, point: int)
    ensures
      var half := Times(n / 2, point);
      Times(n, point) == if n % 2 == 1 then half + half + point else half + half
  {
    TimesDistributes(point, n / 2, n / 2);
    TimesDistributes(point, n / 2 + n / 2, n % 2);
    TimesUnits(point);
    assert n == n / 2 + n / 2 + n % 2;
  }

  // ----- commitments -----

  // `g^a_k` for every coefficient.
  function Commit(f: seq<Scalar>): (r: seq<Element>)
    ensures |r| == |f|
  {
    seq(|f|, i requires 0 <= i < |f| => MulGenerator(f[i]))
  }

  lemma CommitLogs(f: seq<Scalar>)
    ensures Commit(f) == f
  {
    forall i | 0 <= i < |f|
      ensures Commit(f)[i] == f[i]
    {
      GeneratorLog(f[i]);
    }
  }

  // The commitment polynomial evaluated at a participant.
  function CommittedAt(commitment: seq<Element>, p: ParticipantIndex): Element {
    Red(Eval(commitment, ToScalar(p)))
  }

  lemma RawIndexSuffices(commitment: seq<Element>, p: ParticipantIndex)
    ensures Red(Eval(commitment, p)) == CommittedAt(commitment, p)
  {
    EvalSame(commitment, commitment, p, ToScalar(p));
  }

  // Horner's rule over the raw `u32` index.
  method PublicKeyShare(commitment: seq<Element>, p: ParticipantIndex) returns (result: Element)
    ensures result == CommittedAt(commitment, p)
  {
    Evals();
    result := Identity;
    var i := |commitment|;
    while i > 0
      invariant 0 <= i <= |commitment|
      invariant result == Red(Eval(commitment[i..], p))
    {
      i := i - 1;
      HornerStep(commitment[i..], p);
      assert commitment[i..][1..] == commitment[i + 1..];
      var scaled := MulBySmallScalar(result, p);
      TimesCommutes(p, result);
      result := ElementAdd(scaled, commitment[i]);
    }
    assert commitment[0..] == commitment;
    RawIndexSuffices(commitment, p);
  }

  predicate ShareMatches(commitment: seq<Element>, share: Share) {
    CommittedAt(commitment, share.participant) == MulGenerator(share.value)
  }

  method VerifyShare(commitment: seq<Element>, share: Share) returns (ok: bool)
    ensures ok == ShareMatches(commitment, share)
  {
    var expected := PublicKeyShare(commitment, share.participant);
    ok := expected == MulGenerator(share.value);
  }

  // A share passes the check of an honest commitment exactly when it is the
  // polynomial's own share.
  lemma OnlyTheTrueShareMatches(f: seq<Scalar>, share: Share)
    ensures ShareMatches(Commit(f), share) <==> share == Evaluate(f, share.participant)
  {
    CommitLogs(f);
    GeneratorLog(share.value);
  }

  // ----- the random-linear-combination check -----

  function Pow(x: int, k: nat): int {
    if k == 0 then 1 else Times(Pow(x, k - 1), x)
  }

  function Powers(x: int, n: nat): (r: seq<int>)
    ensures |r| == n
  {
    seq(n, k requires 0 <= k < n => Pow(x, k))
  }

  lemma {:induction false} EvalSnoc(f: seq<int>, x: int)
    requires |f| > 0
    ensures Eval(f, x) == Eval(f[..|f| - 1], x) + Times(Pow(x, |f| - 1), f[|f| - 1])
  {
    Evals();
    var n := |f| - 1;
    if n == 0 {
      assert f == [f[0]];
      EvalConstant(f[0], x);
      TimesUnits(f[0]);
    } else {
      var t := f[1..];
      EvalSnoc(t, x);
      assert f[..n][1..] == t[..n - 1];
      TimesDistributes(x, Eval(t[..n - 1], x), Times(Pow(x, n - 1), t[n - 1]));
      TimesReassociate(x, Pow(x, n - 1), t[n - 1]);
    }
  }

  lemma {:induction false} PowersDotIsEval(f: seq<int>, x: int)
    ensures Dot(Powers(x, |f|), f) == Eval(f, x)
  {
    Evals();
    Dots();
    if |f| > 0 {
      var n := |f| - 1;
      PowersDotIsEval(f[..n], x);
      EvalSnoc(f, x);
      assert Powers(x, |f|)[..n] == Powers(x, n);
    }
  }

  // The difference between a claimed share commitment and the committed value.
  function Defect(commitment: seq<Element>, p: ParticipantIndex, share: Element): int {
    share - Eval(commitment, ToScalar(p))
  }

  // sum over receivers of weight * defect
  function WeightedDefect(commitment: seq<Element>, ps: seq<ParticipantIndex>, shares: seq<Element>, weights: seq<Scalar>): int
    requires |ps| == |shares| == |weights|
  {
    if |ps| == 0 then 0
    else
      var n := |ps| - 1;
      WeightedDefect(commitment, ps[..n], shares[..n], weights[..n]) + Times(weights[n], Defect(commitment, ps[n], shares[n]))
  }

  // One receiver's contribution, subtracted from the coefficient weights in place.
  method SubtractPowers(coefficientWeights: array<Scalar>, weight: Scalar, x: Scalar, ghost commitment: seq<Element>)
    requires |commitment| == coefficientWeights.Length
    modifies coefficientWeights
    ensures Red(Dot(coefficientWeights[..], commitment)) ==
            Red(old(Dot(coefficientWeights[..], commitment)) - Times(weight, Eval(commitment, x)))
  {
    ghost var was: seq<int> := coefficientWeights[..];
    ghost var w: int := weight;
    ghost var target := Plus(was, Scale(-w, Powers(x, |was|)));
    var powerWeight := weight;
    StartPowers(weight, x);
    for k := 0 to coefficientWeights.Length
      invariant Red(powerWeight) == WeightedPower(weight, x, k)
      invariant forall i :: k <= i < coefficientWeights.Length ==> coefficientWeights[i] == was[i]
      invariant forall i :: 0 <= i < k ==> Red(coefficientWeights[i]) == Red(target[i])
    {
      assert target[k] == was[k] - Times(weight, Pow(x, k)) by {
        NegatedProduct(weight, Pow(x, k));
      }
      PowerWeightStep(coefficientWeights[k], weight, x, k, powerWeight, target[k]);
      coefficientWeights[k] := Sub(coefficientWeights[k], powerWeight);
      powerWeight := Mul(powerWeight, x);
    }
    SubtractedDot(coefficientWeights[..], was, weight, x, commitment);
  }

  function WeightedPower(weight: int, x: int, k: nat): Scalar {
    Red(Times(weight, Pow(x, k)))
  }

  lemma StartPowers(weight: int, x: int)
    ensures Red(weight) == WeightedPower(weight, x, 0)
  {
    TimesUnits(weight);
  }

  lemma PowerWeightStep(c: Scalar, weight: Scalar, x: Scalar, k: nat, powerWeight: Scalar, target: int)
    requires Red(powerWeight) == WeightedPower(weight, x, k)
    requires target == c - Times(weight, Pow(x, k))
    ensures Red(Sub(c, powerWeight)) == Red(target)
    ensures Red(Mul(powerWeight, x)) == WeightedPower(weight, x, k + 1)
  {
    var p := Times(weight, Pow(x, k));
    RedSub(c, c, powerWeight, p);
    assert target == c - p;
    RedMul(powerWeight, p, x, x);
    TimesAssociates(weight, Pow(x, k), x);
  }

  lemma SubtractedDot(now: seq<int>, was: seq<int>, weight: int, x: int, f: seq<int>)
    requires |now| == |was| == |f|
    requires Same(now, Plus(was, Scale(-weight, Powers(x, |was|))))
    ensures Red(Dot(now, f)) == Red(Dot(was, f) - Times(weight, Eval(f, x)))
  {
    var scaled := Scale(-weight, Powers(x, |f|));
    DotSame(now, Plus(was, scaled), f, f);
    DotPlus(was, scaled, f);
    NegatedPowersDot(weight, x, f);
  }

  lemma NegatedPowersDot(weight: int, x: int, f: seq<int>)
    ensures Dot(Scale(-weight, Powers(x, |f|)), f) == -Times(weight, Eval(f, x))
  {
    DotScale(-weight, Powers(x, |f|), f);
    PowersDotIsEval(f, x);
    NegatedProduct(weight, Eval(f, x));
  }

  lemma NegatedProduct(x: int, y: int)
    ensures Times(-x, y) == -Times(x, y)
  {
    Products();
  }

  // One multiscalar multiplication over the share commitments and coefficients.
  method FeldmanBatchMatches(commitment: seq<Element>, ps: seq<ParticipantIndex>, shares: seq<Element>, weights: seq<Scalar>)
    returns (matches: bool)
    requires |ps| == |shares| == |weights|
    ensures matches <==> Red(WeightedDefect(commitment, ps, shares, weights)) == 0
  {
    var coefficientWeights := new Scalar[|commitment|](i => 0);
    ZeroDot(coefficientWeights[..], commitment);
    DotEnds(weights, shares);
    for j := 0 to |ps|
      invariant Red(Dot(weights[..j], shares[..j]) + Dot(coefficientWeights[..], commitment))
             == Red(WeightedDefect(commitment, ps[..j], shares[..j], weights[..j]))
    {
      ghost var before := Dot(coefficientWeights[..], commitment);
      var x := ToScalar(ps[j]);
      SubtractPowers(coefficientWeights, weights[j], x, commitment);
      DefectStep(commitment, ps, shares, weights, j, before, Dot(coefficientWeights[..], commitment));
    }
    assert ps[..|ps|] == ps && shares[..|ps|] == shares && weights[..|ps|] == weights;
    var scalars := weights + coefficientWeights[..];
    DotConcat(weights, coefficientWeights[..], shares, commitment);
    matches := Msm(scalars, shares + commitment) == Identity;
  }

  lemma {:induction false} ZeroDot(a: seq<int>, b: seq<int>)
    requires |a| == |b| && forall i :: 0 <= i < |a| ==> a[i] == 0
    ensures Dot(a, b) == 0
  {
    Dots();
    if |a| > 0 {
      ZeroDot(a[..|a| - 1], b[..|a| - 1]);
      TimesUnits(b[|a| - 1]);
    }
  }

  lemma DefectStep(commitment: seq<Element>, ps: seq<ParticipantIndex>, shares: seq<Element>, weights: seq<Scalar>, j: nat, before: int, after: int)
    requires j < |ps| == |shares| == |weights|
    requires Red(Dot(weights[..j], shares[..j]) + before) == Red(WeightedDefect(commitment, ps[..j], shares[..j], weights[..j]))
    requires Red(after) == Red(before - Times(weights[j], Eval(commitment, ToScalar(ps[j]))))
    ensures Red(Dot(weights[..j + 1], shares[..j + 1]) + after)
         == Red(WeightedDefect(commitment, ps[..j + 1], shares[..j + 1], weights[..j + 1]))
  {
    assert ps[..j + 1][..j] == ps[..j] && shares[..j + 1][..j] == shares[..j] && weights[..j + 1][..j] == weights[..j];
    DotPrefix(weights, shares, j);
    var w, s, e := weights[j], shares[j], Eval(commitment, ToScalar(ps[j]));
    var d := Dot(weights[..j], shares[..j]);
    RedAdd(d + Times(w, s), d + Times(w, s), after, before - Times(w, e));
    RedAdd(d + before, WeightedDefect(commitment, ps[..j], shares[..j], weights[..j]), Times(w, s - e), Times(w, s - e));
    TimesDistributes(w, s, e);
  }

  predicate AllExact(commitment: seq<Element>, ps: seq<ParticipantIndex>, shares: seq<Element>)
    requires |ps| == |shares|
  {
    forall i :: 0 <= i < |ps| ==> shares[i] == CommittedAt(commitment, ps[i])
  }

  lemma DefectZeroIffExact(commitment: seq<Element>, p: ParticipantIndex, share: Element)
    ensures Red(Defect(commitment, p, share)) == 0 <==> share == CommittedAt(commitment, p)
  {
    var e := Eval(commitment, ToScalar(p));
    if Red(share - e) == 0 {
      RedAdd(share - e, 0, e, e);
    } else if share == Red(e) {
      RedSub(share, e, e, e);
    }
  }

  // The batched check accepts whenever every exact check does.
  lemma {:induction false} ExactSharesPassBatch(commitment: seq<Element>, ps: seq<ParticipantIndex>, shares: seq<Element>, weights: seq<Scalar>)
    requires |ps| == |shares| == |weights| && AllExact(commitment, ps, shares)
    ensures Red(WeightedDefect(commitment, ps, shares, weights)) == 0
  {
    if |ps| > 0 {
      var n := |ps| - 1;
      ExactSharesPassBatch(commitment, ps[..n], shares[..n], weights[..n]);
      var d := Defect(commitment, ps[n], shares[n]);
      DefectZeroIffExact(commitment, ps[n], shares[n]);
      RedMul(weights[n], weights[n], d, 0);
      TimesUnits(weights[n]);
      RedAdd(WeightedDefect(commitment, ps[..n], shares[..n], weights[..n]), 0, Times(weights[n], d), 0);
    }
  }

  // With one receiver and a nonzero weight it is the exact check.
  lemma SingleReceiverBatchIsExact(commitment: seq<Element>, p: ParticipantIndex, share: Element, weight: Scalar)
    requires weight != 0
    ensures Red(WeightedDefect(commitment, [p], [share], [weight])) == 0 <==> share == CommittedAt(commitment, p)
  {
    var d := Defect(commitment, p, share);
    assert WeightedDefect(commitment, [p], [share], [weight]) == Times(weight, d) by {
      assert WeightedDefect(commitment, [p][..0], [share][..0], [weight][..0]) == 0;
    }
    DefectZeroIffExact(commitment, p, share);
    if Red(Times(weight, d)) == 0 {
      NoZeroDivisors(weight, d);
    } else if Red(d) == 0 {
      RedMul(weight, weight, d, 0);
      TimesUnits(weight);
    }
  }

  lemma {:induction false} ReweightDefect(commitment: seq<Element>, ps: seq<ParticipantIndex>, shares: seq<Element>, weights: seq<Scalar>, k: nat, w: Scalar)
    requires k < |ps| == |shares| == |weights|
    ensures WeightedDefect(commitment, ps, shares, weights[k := w])
         == WeightedDefect(commitment, ps, shares, weights) + Times(w - weights[k], Defect(commitment, ps[k], shares[k]))
  {
    var n := |ps| - 1;
    var d := Defect(commitment, ps[k], shares[k]);
    TimesDistributes(d, w, weights[k]);
    if k == n {
      assert weights[k := w][..n] == weights[..n];
    } else {
      ReweightDefect(commitment, ps[..n], shares[..n], weights[..n], k, w);
      assert weights[k := w][..n] == weights[..n][k := w];
    }
  }

  // Whatever the other weights are, a wrong share is accepted under at most one
  // value of its own weight.
  lemma WrongShareNeedsOneWeight(commitment: seq<Element>, ps: seq<ParticipantIndex>, shares: seq<Element>, weights: seq<Scalar>, k: nat, w: Scalar)
    requires k < |ps| == |shares| == |weights| && shares[k] != CommittedAt(commitment, ps[k])
    requires Red(WeightedDefect(commitment, ps, shares, weights)) == 0
    requires Red(WeightedDefect(commitment, ps, shares, weights[k := w])) == 0
    ensures w == weights[k]
  {
    ReweightDefect(commitment, ps, shares, weights, k, w);
    DefectZeroIffExact(commitment, ps[k], shares[k]);
    OnlyWeight(WeightedDefect(commitment, ps, shares, weights), Defect(commitment, ps[k], shares[k]), weights[k], w);
  }

  lemma OnlyWeight(sum: int, defect: int, w: Scalar, w': Scalar)
    requires Red(sum) == 0 && Red(sum + Times(w' - w, defect)) == 0 && Red(defect) != 0
    ensures w' == w
  {
    RedSub(sum + Times(w' - w, defect), 0, sum, 0);
    NoZeroDivisors(w' - w, defect);
    RedAdd(w' - w, 0, w, w);
  }
}
