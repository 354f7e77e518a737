// EHTDH1 key material and its degree check: context.rs.
module PublicKeys {
  import opened Wrappers
  import opened Scalars
  import opened Vectors
  import opened Polynomials
  import opened Core
  import opened Shamir
  import opened OrderedMap

  datatype EhtdhError =
    | BadThreshold
    | BadEncoding
    | ScalarDerivationFailed
    | InvalidCiphertextProof
    | AssociatedDataMismatch
    | InvalidJointPublicKey
    | InvalidPublicKeySet
    | InvalidShareProof
    | NoSuchParticipant(index: int)

  // X_i and Z_i.
  datatype PublicShare = PublicShare(decryption: Element, context: Element)

  type PublicShares = map<ParticipantIndex, PublicShare>

  datatype PublicKeySet = PublicKeySet(threshold: nat, jointPublicKey: Element, publicShares: PublicShares)

  // The participants in the order of the map.
  function Members(shares: PublicShares): (ps: seq<ParticipantIndex>)
    ensures |ps| == |shares|
  {
    assert |shares.Keys| == |shares|;
    InOrder(shares.Keys)
  }

  lemma MembersFacts(shares: PublicShares)
    ensures Unique(Members(shares))
    ensures forall p :: p in Members(shares) <==> p in shares
  {
    InOrderFacts(shares.Keys);
    InOrderIncreasing(shares.Keys);
  }

  // The first t participants, and the others.
  function BasisOf(shares: PublicShares, t: nat): (basis: seq<ParticipantIndex>)
    requires t <= |shares|
    ensures |basis| == t
  {
    Members(shares)[..t]
  }

  function RestOf(shares: PublicShares, t: nat): seq<ParticipantIndex>
    requires t <= |shares|
  {
    Members(shares)[t..]
  }

  lemma BasisFacts(shares: PublicShares, t: nat)
    requires t <= |shares|
    ensures Unique(BasisOf(shares, t))
    ensures forall p :: p in shares <==> p in BasisOf(shares, t) || p in RestOf(shares, t)
  {
    MembersFacts(shares);
    assert Members(shares) == BasisOf(shares, t) + RestOf(shares, t);
  }

  // ----- interpolation in the exponent -----

  // The Lagrange coefficient of ps[i] at x, skipping the participant itself.
  method LagrangeAt(ps: seq<ParticipantIndex>, i: nat, x: Scalar) returns (r: Result<Scalar, EhtdhError>)
    requires i < |ps| && Unique(ps)
    ensures r == if Red(Denominator(Points(ps), i)) == 0 then Err(BadThreshold) else Ok(Lambda(Points(ps), i, x))
  {
    var xs := Points(ps);
    var numerator, denominator := Red(1), Red(1);
    for j := 0 to |ps|
      invariant numerator == Red(ProductSkip(xs, i, x, j))
      invariant denominator == Red(ProductSkip(xs, i, xs[i], j))
    {
      ProductSkipStep(xs, i, x, j);
      ProductSkipStep(xs, i, xs[i], j);
      if ps[j] != ps[i] {
        numerator := Mul(numerator, Sub(x, xs[j]));
        denominator := Mul(denominator, Sub(xs[i], xs[j]));
      }
    }
    LambdaFromProducts(xs, i, x);
    if denominator == 0 {
      return Err(BadThreshold);
    }
    r := Ok(Mul(numerator, Inverse(denominator)));
  }

  datatype Selector = Decryption | Context

  function Select(select: Selector, share: PublicShare): Element {
    if select.Decryption? then share.decryption else share.context
  }

  // Interpolation over the first n participants, with its first error.
  function InterpolatedTo(ps: seq<ParticipantIndex>, x: Scalar, select: Selector, shares: PublicShares, n: nat): Result<Element, EhtdhError>
    requires n <= |ps|
  {
    if n == 0 then Ok(Identity)
    else
      var point :- InterpolatedTo(ps, x, select, shares, n - 1);
      if Red(Denominator(Points(ps), n - 1)) == 0 then Err(BadThreshold)
      else if ps[n - 1] !in shares then Err(NoSuchParticipant(ps[n - 1]))
      else Ok(ElementAdd(point, ElementMul(Select(select, shares[ps[n - 1]]), Lambda(Points(ps), n - 1, x))))
  }

  function Interpolated(ps: seq<ParticipantIndex>, x: Scalar, select: Selector, shares: PublicShares): Result<Element, EhtdhError> {
    InterpolatedTo(ps, x, select, shares, |ps|)
  }

  lemma {:induction false} InterpolatedErrorStays(ps: seq<ParticipantIndex>, x: Scalar, select: Selector, shares: PublicShares, n: nat)
    requires n <= |ps| && InterpolatedTo(ps, x, select, shares, n).Err?
    ensures Interpolated(ps, x, select, shares) == InterpolatedTo(ps, x, select, shares, n)
    decreases |ps| - n
  {
    if n < |ps| {
      InterpolatedErrorStays(ps, x, select, shares, n + 1);
    }
  }

  method InterpolatePublicKeyShare(ps: seq<ParticipantIndex>, x: Scalar, select: Selector, shares: PublicShares)
    returns (r: Result<Element, EhtdhError>)
    requires Unique(ps)
    ensures r == Interpolated(ps, x, select, shares)
  {
    var point := Identity;
    for i := 0 to |ps|
      invariant InterpolatedTo(ps, x, select, shares, i) == Ok(point)
    {
      var lambda := LagrangeAt(ps, i, x);
      if lambda.Err? {
        InterpolatedErrorStays(ps, x, select, shares, i + 1);
        return Err(lambda.error);
      }
      if ps[i] !in shares {
        InterpolatedErrorStays(ps, x, select, shares, i + 1);
        return Err(NoSuchParticipant(ps[i]));
      }
      point := ElementAdd(point, ElementMul(Select(select, shares[ps[i]]), lambda.value));
    }
    r := Ok(point);
  }

  function Selected(ps: seq<ParticipantIndex>, select: Selector, shares: PublicShares): (r: seq<Element>)
    requires forall p :: p in ps ==> p in shares
    ensures |r| == |ps|
  {
    seq(|ps|, i requires 0 <= i < |ps| => Select(select, shares[ps[i]]))
  }

  lemma {:induction false} InterpolatedIsDotTo(ps: seq<ParticipantIndex>, x: Scalar, select: Selector, shares: PublicShares, n: nat)
    requires n <= |ps| && DistinctPoints(Points(ps)) && forall p :: p in ps ==> p in shares
    ensures InterpolatedTo(ps, x, select, shares, n)
         == Ok(Red(Dot(Selected(ps, select, shares)[..n], Basis(Points(ps), x)[..n])))
  {
    DotEnds(Selected(ps, select, shares), Basis(Points(ps), x));
    if n > 0 {
      var ys, b := Selected(ps, select, shares), Basis(Points(ps), x);
      InterpolatedIsDotTo(ps, x, select, shares, n - 1);
      DenominatorsNonzero(Points(ps));
      DotPrefix(ys, b, n - 1);
      InterpolationStep(ps, x, select, shares, n - 1, Dot(ys[..n - 1], b[..n - 1]));
    }
  }

  lemma InterpolationStep(ps: seq<ParticipantIndex>, x: Scalar, select: Selector, shares: PublicShares, n: nat, sum: int)
    requires n < |ps| && InterpolatedTo(ps, x, select, shares, n) == Ok(Red(sum))
    requires Red(Denominator(Points(ps), n)) != 0 && ps[n] in shares
    ensures InterpolatedTo(ps, x, select, shares, n + 1) == Ok(Red(sum + Times(Select(select, shares[ps[n]]), Lambda(Points(ps), n, x))))
  {
    AccumulateStep(sum, Select(select, shares[ps[n]]), Lambda(Points(ps), n, x));
  }

  lemma InterpolatedIsDot(ps: seq<ParticipantIndex>, x: Scalar, select: Selector, shares: PublicShares)
    requires DistinctPoints(Points(ps)) && forall p :: p in ps ==> p in shares
    ensures Interpolated(ps, x, select, shares) == Ok(Red(Dot(Selected(ps, select, shares), Basis(Points(ps), x))))
  {
    InterpolatedIsDotTo(ps, x, select, shares, |ps|);
    var ys, b := Selected(ps, select, shares), Basis(Points(ps), x);
    DotEnds(ys, b);
  }

  lemma CollidingPointsRejected(ps: seq<ParticipantIndex>, x: Scalar, select: Selector, shares: PublicShares)
    requires !DistinctPoints(Points(ps))
    ensures Interpolated(ps, x, select, shares).Err?
  {
    var xs := Points(ps);
    DenominatorsNonzero(xs);
    var i :| 0 <= i < |xs| && Red(Denominator(xs, i)) == 0;
    assert InterpolatedTo(ps, x, select, shares, i + 1).Err?;
    InterpolatedErrorStays(ps, x, select, shares, i + 1);
  }

  // ----- the validity check -----

  // One participant's shares lie on the polynomials through the basis.
  predicate ParticipantMatches(basis: seq<ParticipantIndex>, p: ParticipantIndex, shares: PublicShares) {
    && p in shares
    && Interpolated(basis, ToScalar(p), Decryption, shares) == Ok(shares[p].decryption)
    && Interpolated(basis, ToScalar(p), Context, shares) == Ok(shares[p].context)
  }

  // The check as the code performs it.
  predicate SharesValid(threshold: nat, jointPublicKey: Element, shares: PublicShares)
    requires threshold <= |shares|
  {
    var basis := BasisOf(shares, threshold);
    && Interpolated(basis, 0, Decryption, shares) == Ok(jointPublicKey)
    && Interpolated(basis, 0, Context, shares) == Ok(Identity)
    && AllMatch(basis, RestOf(shares, threshold), shares)
  }

  predicate AllMatch(basis: seq<ParticipantIndex>, rest: seq<ParticipantIndex>, shares: PublicShares) {
    forall p :: p in rest ==> ParticipantMatches(basis, p, shares)
  }

  method ValidatePublicShares(threshold: nat, jointPublicKey: Element, shares: PublicShares)
    returns (r: Option<EhtdhError>)
    requires threshold <= |shares|
    ensures r.None? <==> SharesValid(threshold, jointPublicKey, shares)
    ensures r.Some? ==> r.value == BadThreshold || r.value == InvalidPublicKeySet
    ensures r == Some(BadThreshold) <==> !DistinctPoints(Points(BasisOf(shares, threshold)))
  {
    BasisFacts(shares, threshold);
    var basis := BasisOf(shares, threshold);
    r := CheckAtZero(basis, Decryption, shares, jointPublicKey);
    if r.Some? {
      return;
    }
    r := CheckAtZero(basis, Context, shares, Identity);
    if r.Some? {
      return;
    }
    r := CheckRest(basis, RestOf(shares, threshold), shares);
  }

  // The participants after the basis, in order.
  method CheckRest(basis: seq<ParticipantIndex>, rest: seq<ParticipantIndex>, shares: PublicShares)
    returns (r: Option<EhtdhError>)
    requires Unique(basis) && DistinctPoints(Points(basis)) && forall p :: p in basis ==> p in shares
    requires forall p :: p in rest ==> p in shares
    ensures r.None? <==> AllMatch(basis, rest, shares)
    ensures r.Some? ==> r.value == InvalidPublicKeySet
  {
    for k := 0 to |rest|
      invariant AllMatch(basis, rest[..k], shares)
    {
      r := CheckParticipant(basis, rest[k], shares);
      if r.Some? {
        return;
      }
      assert rest[..k + 1] == rest[..k] + [rest[k]];
    }
    assert rest[..|rest|] == rest;
    r := None;
  }

  // Interpolate at zero and compare with the expected key.
  method CheckAtZero(basis: seq<ParticipantIndex>, select: Selector, shares: PublicShares, expected: Element)
    returns (r: Option<EhtdhError>)
    requires Unique(basis) && forall p :: p in basis ==> p in shares
    ensures r.None? <==> Interpolated(basis, 0, select, shares) == Ok(expected)
    ensures r == Some(BadThreshold) <==> !DistinctPoints(Points(basis))
    ensures r.Some? ==> r.value == BadThreshold || r.value == InvalidPublicKeySet
  {
    BasisOutcome(basis, 0, select, shares);
    var point := InterpolatePublicKeyShare(basis, 0, select, shares);
    if point.Err? {
      return Some(point.error);
    }
    r := if point.value == expected then None else Some(InvalidPublicKeySet);
  }

  // Interpolate both polynomials at one participant and compare with its shares.
  method CheckParticipant(basis: seq<ParticipantIndex>, p: ParticipantIndex, shares: PublicShares)
    returns (r: Option<EhtdhError>)
    requires Unique(basis) && p in shares && forall b :: b in basis ==> b in shares
    ensures r.None? <==> ParticipantMatches(basis, p, shares)
    ensures r == Some(BadThreshold) <==> !DistinctPoints(Points(basis))
    ensures r.Some? ==> r.value == BadThreshold || r.value == InvalidPublicKeySet
  {
    var x := ToScalar(p);
    BasisOutcome(basis, x, Decryption, shares);
    BasisOutcome(basis, x, Context, shares);
    var expectedDecryption := InterpolatePublicKeyShare(basis, x, Decryption, shares);
    if expectedDecryption.Err? {
      return Some(expectedDecryption.error);
    }
    var expectedContext := InterpolatePublicKeyShare(basis, x, Context, shares);
    if expectedContext.Err? {
      // The same basis was inverted a line above.
      assert false;
    }
    if expectedDecryption.value != shares[p].decryption || expectedContext.value != shares[p].context {
      return Some(InvalidPublicKeySet);
    }
    r := None;
  }

  // Interpolating over known participants fails only when two of them collide.
  lemma BasisOutcome(basis: seq<ParticipantIndex>, x: Scalar, select: Selector, shares: PublicShares)
    requires forall p :: p in basis ==> p in shares
    ensures if DistinctPoints(Points(basis)) then Interpolated(basis, x, select, shares).Ok?
            else Interpolated(basis, x, select, shares) == Err(BadThreshold)
  {
    if DistinctPoints(Points(basis)) {
      InterpolatedIsDot(basis, x, select, shares);
    } else {
      CollidingPointsRejected(basis, x, select, shares);
      KnownParticipantsErrors(basis, x, select, shares, |basis|);
    }
  }

  lemma {:induction false} KnownParticipantsErrors(basis: seq<ParticipantIndex>, x: Scalar, select: Selector, shares: PublicShares, n: nat)
    requires n <= |basis| && forall p :: p in basis ==> p in shares
    ensures InterpolatedTo(basis, x, select, shares, n).Err? ==> InterpolatedTo(basis, x, select, shares, n) == Err(BadThreshold)
  {
    if n > 0 {
      KnownParticipantsErrors(basis, x, select, shares, n - 1);
      assert basis[n - 1] in basis;
    }
  }

  // The public key set constructor.
  method NewPublicKeySet(threshold: nat, jointPublicKey: Element, shares: PublicShares) returns (r: Result<PublicKeySet, EhtdhError>)
    ensures r.Ok? <==> 0 < threshold <= |shares| && jointPublicKey != Identity && SharesValid(threshold, jointPublicKey, shares)
    ensures r.Ok? ==> r.value == PublicKeySet(threshold, jointPublicKey, shares)
    ensures r == Err(InvalidJointPublicKey) <==> 0 < threshold <= |shares| && jointPublicKey == Identity
    ensures r == Err(BadThreshold) <==>
      (0 < threshold <= |shares| ==>
        jointPublicKey != Identity && !DistinctPoints(Points(BasisOf(shares, threshold))))
  {
    if threshold == 0 || |shares| < threshold {
      return Err(BadThreshold);
    }
    if jointPublicKey == Identity {
      return Err(InvalidJointPublicKey);
    }
    var invalid := ValidatePublicShares(threshold, jointPublicKey, shares);
    if invalid.Some? {
      return Err(invalid.value);
    }
    r := Ok(PublicKeySet(threshold, jointPublicKey, shares));
  }

  // ----- what acceptance means -----

  // f commits to `secret` at zero and to every participant's selected share.
  predicate Explains(f: seq<Scalar>, secret: Element, select: Selector, shares: PublicShares) {
    && Red(Eval(f, 0)) == secret
    && forall p :: p in shares ==> Red(Eval(f, ToScalar(p))) == Select(select, shares[p])
  }

  lemma BasisRecovers(basis: seq<ParticipantIndex>, f: seq<Scalar>, secret: Element, select: Selector, shares: PublicShares, x: Scalar)
    requires |f| <= |basis| && DistinctPoints(Points(basis)) && Explains(f, secret, select, shares)
    requires forall p :: p in basis ==> p in shares
    ensures Interpolated(basis, x, select, shares) == Ok(Red(Eval(f, x)))
  {
    var xs, ys := Points(basis), Selected(basis, select, shares);
    forall i | 0 <= i < |basis|
      ensures Red(ys[i]) == Red(Values(f, xs)[i])
    {
      assert basis[i] in shares;
    }
    LagrangeRecovers(f, xs, ys, x);
    InterpolatedIsDot(basis, x, select, shares);
  }

  // The polynomial through the basis explains every share the check compared.
  lemma CheckedBasisExplains(basis: seq<ParticipantIndex>, rest: seq<ParticipantIndex>, secret: Element, select: Selector, shares: PublicShares)
    returns (f: seq<Scalar>)
    requires DistinctPoints(Points(basis))
    requires forall p :: p in shares <==> p in basis || p in rest
    requires Interpolated(basis, 0, select, shares) == Ok(secret)
    requires forall p :: p in rest ==> p in shares && Interpolated(basis, ToScalar(p), select, shares) == Ok(Select(select, shares[p]))
    ensures |f| == |basis| && Explains(f, secret, select, shares)
  {
    var xs, ys := Points(basis), Selected(basis, select, shares);
    var g := Interpolant(xs, ys);
    f := Reduced(g);
    ReducedSame(g);
    EvalSame(f, g, 0, 0);
    EvalInterpolant(xs, ys, 0);
    InterpolatedIsDot(basis, 0, select, shares);
    forall p | p in shares
      ensures Red(Eval(f, ToScalar(p))) == Select(select, shares[p])
    {
      EvalSame(f, g, ToScalar(p), ToScalar(p));
      if p in basis {
        var k :| 0 <= k < |basis| && basis[k] == p;
        InterpolantFits(xs, ys, k);
      } else {
        EvalInterpolant(xs, ys, ToScalar(p));
        InterpolatedIsDot(basis, ToScalar(p), select, shares);
      }
    }
  }

  // The check passes exactly when the basis points are distinct and two polynomials
  // of degree below the threshold explain all X_i with X at zero, and all Z_i with
  // the identity at zero.
  lemma AcceptanceMeansPolynomials(threshold: nat, jointPublicKey: Element, shares: PublicShares)
    requires threshold <= |shares|
    ensures SharesValid(threshold, jointPublicKey, shares) <==>
      && DistinctPoints(Points(BasisOf(shares, threshold)))
      && (exists f: seq<Scalar> :: |f| <= threshold && Explains(f, jointPublicKey, Decryption, shares))
      && (exists g: seq<Scalar> :: |g| <= threshold && Explains(g, Identity, Context, shares))
  {
    var basis, rest := BasisOf(shares, threshold), RestOf(shares, threshold);
    BasisFacts(shares, threshold);
    if SharesValid(threshold, jointPublicKey, shares) {
      BasisOutcome(basis, 0, Decryption, shares);
      var f := CheckedBasisExplains(basis, rest, jointPublicKey, Decryption, shares);
      var g := CheckedBasisExplains(basis, rest, Identity, Context, shares);
    }
    if
      && DistinctPoints(Points(basis))
      && (exists f: seq<Scalar> :: |f| <= threshold && Explains(f, jointPublicKey, Decryption, shares))
      && (exists g: seq<Scalar> :: |g| <= threshold && Explains(g, Identity, Context, shares))
    {
      var f: seq<Scalar> :| |f| <= threshold && Explains(f, jointPublicKey, Decryption, shares);
      var g: seq<Scalar> :| |g| <= threshold && Explains(g, Identity, Context, shares);
      ExplainedIsValid(basis, f, g, jointPublicKey, rest, shares);
    }
  }

  lemma ExplainedIsValid(basis: seq<ParticipantIndex>, f: seq<Scalar>, g: seq<Scalar>, secret: Element, rest: seq<ParticipantIndex>, shares: PublicShares)
    requires |f| <= |basis| && |g| <= |basis| && DistinctPoints(Points(basis))
    requires Explains(f, secret, Decryption, shares) && Explains(g, Identity, Context, shares)
    requires forall p :: p in basis ==> p in shares
    requires forall p :: p in rest ==> p in shares
    ensures Interpolated(basis, 0, Decryption, shares) == Ok(secret)
    ensures Interpolated(basis, 0, Context, shares) == Ok(Identity)
    ensures AllMatch(basis, rest, shares)
  {
    BasisRecovers(basis, f, secret, Decryption, shares, 0);
    BasisRecovers(basis, g, Identity, Context, shares, 0);
    forall p | p in rest
      ensures ParticipantMatches(basis, p, shares)
    {
      BasisRecovers(basis, f, secret, Decryption, shares, ToScalar(p));
      BasisRecovers(basis, g, Identity, Context, shares, ToScalar(p));
    }
  }

  // Any threshold-many distinct participants of an accepted set interpolate to the
  // joint key, and their context shares to the identity, not only the first ones.
  lemma EverySubsetInterpolates(keys: PublicKeySet, subset: seq<ParticipantIndex>)
    requires keys.threshold <= |keys.publicShares| && SharesValid(keys.threshold, keys.jointPublicKey, keys.publicShares)
    requires |subset| >= keys.threshold && DistinctPoints(Points(subset))
    requires forall p :: p in subset ==> p in keys.publicShares
    ensures Interpolated(subset, 0, Decryption, keys.publicShares) == Ok(keys.jointPublicKey)
    ensures Interpolated(subset, 0, Context, keys.publicShares) == Ok(Identity)
  {
    AcceptanceMeansPolynomials(keys.threshold, keys.jointPublicKey, keys.publicShares);
    var f: seq<Scalar> :| |f| <= keys.threshold && Explains(f, keys.jointPublicKey, Decryption, keys.publicShares);
    var g: seq<Scalar> :| |g| <= keys.threshold && Explains(g, Identity, Context, keys.publicShares);
    BasisRecovers(subset, f, keys.jointPublicKey, Decryption, keys.publicShares, 0);
    BasisRecovers(subset, g, Identity, Context, keys.publicShares, 0);
  }
}
