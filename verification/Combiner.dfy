// Combining decryption shares: decrypt.rs.
module Combiner {
  import opened Wrappers
  import opened Scalars
  import opened Vectors
  import opened Polynomials
  import opened Core
  import opened Shamir
  import opened PublicKeys
  import opened Ehtdh

  datatype CombineError =
    | Rejected(error: EhtdhError)
    | InsufficientShares(required: nat, provided: nat)
    | MalformedShares(participants: seq<int>)

  function ParticipantsOf(shares: seq<DecryptionShare>): (r: seq<ParticipantIndex>)
    ensures |r| == |shares|
  {
    seq(|shares|, i requires 0 <= i < |shares| => shares[i].participant)
  }

  function Partials(shares: seq<DecryptionShare>): (r: seq<Element>)
    ensures |r| == |shares|
  {
    seq(|shares|, i requires 0 <= i < |shares| => shares[i].share)
  }

  // ----- opening with verified shares -----

  // U = sum of lambda_j W_j, then the payload unmasked with the stream of (R, U).
  function Opened(o: Oracles, ct: Ciphertext, shares: seq<DecryptionShare>): Result<Bytes, CombineError> {
    var xs := Points(ParticipantsOf(shares));
    if !DistinctPoints(xs) then Err(Rejected(BadThreshold))
    else
      match o.keystream(ct.ephemeralPublic, Red(Dot(Partials(shares), Basis(xs, 0))))
      case Err(e) => Err(Rejected(e))
      case Ok(stream) => Ok(Masked(ct.encryptedPayload, stream))
  }

  method CombineVerified(o: Oracles, ct: Ciphertext, shares: seq<DecryptionShare>) returns (r: Result<Bytes, CombineError>)
    ensures r == Opened(o, ct, shares)
  {
    var xs := Points(ParticipantsOf(shares));
    var coefficients := LagrangeCoefficientsAtZero(xs);
    if coefficients.Err? {
      return Err(Rejected(BadThreshold));
    }
    var lambdas := coefficients.value;
    ghost var ws := Partials(shares);
    var dhPoint := Identity;
    DotEnds(ws, lambdas);
    for i := 0 to |shares|
      invariant dhPoint == Red(Dot(ws[..i], lambdas[..i]))
    {
      DotPrefix(ws, lambdas, i);
      AccumulateStep(Dot(ws[..i], lambdas[..i]), shares[i].share, lambdas[i]);
      dhPoint := ElementAdd(dhPoint, ElementMul(shares[i].share, lambdas[i]));
    }
    var plaintext := new bv8[|ct.encryptedPayload|](i requires 0 <= i < |ct.encryptedPayload| => ct.encryptedPayload[i]);
    assert plaintext[..] == ct.encryptedPayload;
    var failed := ApplyPayloadMask(o, plaintext, ct.ephemeralPublic, dhPoint);
    if failed.Some? {
      return Err(Rejected(failed.value));
    }
    r := Ok(plaintext[..]);
  }

  // ----- exactly threshold shares -----

  // A known participant's share with a valid proof.
  predicate Passes(o: Oracles, setup: Bytes, keys: PublicKeySet, group: Element, ct: Ciphertext, share: DecryptionShare) {
    && share.participant in keys.publicShares
    && VerifyDecryptionShare(o, setup, group, ct, share, keys.publicShares[share.participant]).Ok?
  }

  // The malformed participants among the first n shares: repeated participants and
  // failed proofs. An unknown participant that is no repeat ends the scan.
  function Malformed(o: Oracles, setup: Bytes, keys: PublicKeySet, group: Element, ct: Ciphertext, shares: seq<DecryptionShare>, n: nat)
    : Result<seq<int>, CombineError>
    requires n <= |shares|
  {
    if n == 0 then Ok([])
    else
      var before :- Malformed(o, setup, keys, group, ct, shares, n - 1);
      var p := shares[n - 1].participant;
      if p in ParticipantsOf(shares)[..n - 1] then Ok(before + [p])
      else if p !in keys.publicShares then Err(Rejected(NoSuchParticipant(p)))
      else if Passes(o, setup, keys, group, ct, shares[n - 1]) then Ok(before)
      else Ok(before + [p])
  }

  lemma {:induction false} MalformedErrorStays(o: Oracles, setup: Bytes, keys: PublicKeySet, group: Element, ct: Ciphertext, shares: seq<DecryptionShare>, n: nat)
    requires n <= |shares| && Malformed(o, setup, keys, group, ct, shares, n).Err?
    ensures Malformed(o, setup, keys, group, ct, shares, |shares|) == Malformed(o, setup, keys, group, ct, shares, n)
    decreases |shares| - n
  {
    if n < |shares| {
      MalformedErrorStays(o, setup, keys, group, ct, shares, n + 1);
    }
  }

  function DecryptionGroup(o: Oracles, setup: Bytes, ct: Ciphertext, dc: Bytes): Result<Element, CombineError> {
    match VerifyCiphertext(o, ct)
    case Err(e) => Err(Rejected(e))
    case Ok(_) =>
      match o.hdgd(setup, ct, dc)
      case Err(e) => Err(Rejected(e))
      case Ok(group) => Ok(group)
  }

  function Selected(o: Oracles, setup: Bytes, keys: PublicKeySet, ct: Ciphertext, dc: Bytes, shares: seq<DecryptionShare>): Result<Bytes, CombineError> {
    var group :- DecryptionGroup(o, setup, ct, dc);
    var malformed :- Malformed(o, setup, keys, group, ct, shares, |shares|);
    if malformed != [] then Err(MalformedShares(malformed)) else Opened(o, ct, shares)
  }

  function Exact(o: Oracles, setup: Bytes, keys: PublicKeySet, ct: Ciphertext, dc: Bytes, shares: seq<DecryptionShare>): Result<Bytes, CombineError> {
    if |shares| != keys.threshold then Err(InsufficientShares(keys.threshold, |shares|))
    else Selected(o, setup, keys, ct, dc, shares)
  }

  method CombineSelected(o: Oracles, setup: Bytes, keys: PublicKeySet, ct: Ciphertext, dc: Bytes, shares: seq<DecryptionShare>)
    returns (r: Result<Bytes, CombineError>)
    ensures r == Selected(o, setup, keys, ct, dc, shares)
  {
    var group :- DecryptionGroup(o, setup, ct, dc);
    var ps := ParticipantsOf(shares);
    var seen: set<ParticipantIndex> := {};
    var malformed: seq<int> := [];
    for i := 0 to |shares|
      invariant Malformed(o, setup, keys, group, ct, shares, i) == Ok(malformed)
      invariant forall p :: p in seen <==> p in ps[..i]
    {
      assert ps[..i + 1] == ps[..i] + [ps[i]];
      var share := shares[i];
      if share.participant in seen {
        malformed := malformed + [share.participant];
        continue;
      }
      seen := seen + {share.participant};
      if share.participant !in keys.publicShares {
        MalformedErrorStays(o, setup, keys, group, ct, shares, i + 1);
        return Err(Rejected(NoSuchParticipant(share.participant)));
      }
      var verified := VerifyDecryptionShare(o, setup, group, ct, share, keys.publicShares[share.participant]);
      if verified.Err? {
        malformed := malformed + [share.participant];
      }
    }
    if malformed != [] {
      return Err(MalformedShares(malformed));
    }
    r := CombineVerified(o, ct, shares);
  }

  method CombineExact(o: Oracles, setup: Bytes, keys: PublicKeySet, ct: Ciphertext, dc: Bytes, shares: seq<DecryptionShare>)
    returns (r: Result<Bytes, CombineError>)
    ensures r == Exact(o, setup, keys, ct, dc, shares)
  {
    if |shares| != keys.threshold {
      return Err(InsufficientShares(keys.threshold, |shares|));
    }
    r := CombineSelected(o, setup, keys, ct, dc, shares);
  }

  // ----- searching a list for a quorum -----

  // The first passing share of each participant, and everything else.
  datatype Sifted = Sifted(valid: seq<DecryptionShare>, malformed: seq<int>)

  function Sift(o: Oracles, setup: Bytes, keys: PublicKeySet, group: Element, ct: Ciphertext, shares: seq<DecryptionShare>): Sifted {
    if |shares| == 0 then Sifted([], [])
    else
      var n := |shares| - 1;
      var before := Sift(o, setup, keys, group, ct, shares[..n]);
      if shares[n].participant !in ParticipantsOf(before.valid) && Passes(o, setup, keys, group, ct, shares[n])
      then before.(valid := before.valid + [shares[n]])
      else before.(malformed := before.malformed + [shares[n].participant])
  }

  method VerifyShares(o: Oracles, setup: Bytes, keys: PublicKeySet, group: Element, ct: Ciphertext, shares: seq<DecryptionShare>)
    returns (valid: seq<DecryptionShare>, malformed: seq<int>)
    ensures Sifted(valid, malformed) == Sift(o, setup, keys, group, ct, shares)
  {
    var accepted: set<ParticipantIndex> := {};
    valid, malformed := [], [];
    for i := 0 to |shares|
      invariant Sifted(valid, malformed) == Sift(o, setup, keys, group, ct, shares[..i])
      invariant forall p :: p in accepted <==> p in ParticipantsOf(valid)
    {
      assert shares[..i + 1][..i] == shares[..i];
      var share := shares[i];
      if share.participant in accepted || share.participant !in keys.publicShares {
        malformed := malformed + [share.participant];
        continue;
      }
      var verified := VerifyDecryptionShare(o, setup, group, ct, share, keys.publicShares[share.participant]);
      if verified.Ok? {
        accepted := accepted + {share.participant};
        assert ParticipantsOf(valid + [share]) == ParticipantsOf(valid) + [share.participant];
        valid := valid + [share];
      } else {
        malformed := malformed + [share.participant];
      }
    }
    assert shares[..|shares|] == shares;
  }

  function Quorum(o: Oracles, setup: Bytes, keys: PublicKeySet, ct: Ciphertext, dc: Bytes, shares: seq<DecryptionShare>): Result<Bytes, CombineError> {
    var group :- DecryptionGroup(o, setup, ct, dc);
    var sifted := Sift(o, setup, keys, group, ct, shares);
    if |sifted.valid| >= keys.threshold then Opened(o, ct, sifted.valid[..keys.threshold])
    else if sifted.malformed != [] then Err(MalformedShares(sifted.malformed))
    else Err(InsufficientShares(keys.threshold, |sifted.valid|))
  }

  method CombineQuorum(o: Oracles, setup: Bytes, keys: PublicKeySet, ct: Ciphertext, dc: Bytes, shares: seq<DecryptionShare>)
    returns (r: Result<Bytes, CombineError>)
    ensures r == Quorum(o, setup, keys, ct, dc, shares)
  {
    var group :- DecryptionGroup(o, setup, ct, dc);
    var valid, malformed := VerifyShares(o, setup, keys, group, ct, shares);
    if |valid| < keys.threshold {
      if malformed != [] {
        return Err(MalformedShares(malformed));
      }
      return Err(InsufficientShares(keys.threshold, |valid|));
    }
    r := CombineVerified(o, ct, valid[..keys.threshold]);
  }

  // ----- what the sifted list holds -----

  lemma {:induction false} SiftFacts(o: Oracles, setup: Bytes, keys: PublicKeySet, group: Element, ct: Ciphertext, shares: seq<DecryptionShare>)
    ensures
      var valid := Sift(o, setup, keys, group, ct, shares).valid;
      && Unique(ParticipantsOf(valid))
      && (forall s :: s in valid ==> s in shares && Passes(o, setup, keys, group, ct, s))
      && (forall s :: s in shares && Passes(o, setup, keys, group, ct, s) ==> s.participant in ParticipantsOf(valid))
  {
    if |shares| > 0 {
      var n := |shares| - 1;
      SiftFacts(o, setup, keys, group, ct, shares[..n]);
      var before := Sift(o, setup, keys, group, ct, shares[..n]).valid;
      assert shares == shares[..n] + [shares[n]];
      assert ParticipantsOf(before + [shares[n]]) == ParticipantsOf(before) + [shares[n].participant];
    }
  }

  // The participants that sent some passing share.
  function PassingParticipants(o: Oracles, setup: Bytes, keys: PublicKeySet, group: Element, ct: Ciphertext, shares: seq<DecryptionShare>): set<ParticipantIndex> {
    set s | s in shares && Passes(o, setup, keys, group, ct, s) :: s.participant
  }

  lemma SiftedCount(o: Oracles, setup: Bytes, keys: PublicKeySet, group: Element, ct: Ciphertext, shares: seq<DecryptionShare>)
    ensures |Sift(o, setup, keys, group, ct, shares).valid| == |PassingParticipants(o, setup, keys, group, ct, shares)|
  {
    var valid := Sift(o, setup, keys, group, ct, shares).valid;
    SiftFacts(o, setup, keys, group, ct, shares);
    var ps := ParticipantsOf(valid);
    assert SetOf(ps) == PassingParticipants(o, setup, keys, group, ct, shares) by {
      forall p | p in ps
        ensures p in PassingParticipants(o, setup, keys, group, ct, shares)
      {
        var i :| 0 <= i < |ps| && ps[i] == p;
        assert valid[i] in valid;
      }
    }
    UniqueCount(ps);
  }

  function SetOf(ps: seq<ParticipantIndex>): set<ParticipantIndex> {
    set p | p in ps
  }

  lemma {:induction false} UniqueCount(ps: seq<ParticipantIndex>)
    requires Unique(ps)
    ensures |SetOf(ps)| == |ps|
  {
    if |ps| == 0 {
      assert SetOf(ps) == {};
    } else {
      var n := |ps| - 1;
      UniqueCount(ps[..n]);
      assert ps[n] !in SetOf(ps[..n]);
      assert SetOf(ps) == SetOf(ps[..n]) + {ps[n]} by {
        assert ps == ps[..n] + [ps[n]];
      }
      assert |SetOf(ps[..n]) + {ps[n]}| == |SetOf(ps[..n])| + 1;
    }
  }

  // ----- the scheme is correct -----

  // Every listed share is x(p) R + z(p) S for the sharing polynomials f and g.
  predicate TrueShares(f: seq<Scalar>, g: seq<Scalar>, R: Element, S: Element, shares: seq<DecryptionShare>) {
    forall s :: s in shares ==> s.share == TrueShare(f, g, R, S, s.participant)
  }

  function TrueShare(f: seq<Scalar>, g: seq<Scalar>, R: Element, S: Element, p: ParticipantIndex): Element {
    ShareOf(SecretShare(p, Red(Eval(f, ToScalar(p))), Red(Eval(g, ToScalar(p)))), R, S)
  }

  lemma TrueShareValue(f: seq<Scalar>, g: seq<Scalar>, R: Element, S: Element, p: ParticipantIndex)
    ensures Red(TrueShare(f, g, R, S, p)) == Red(Times(R, Eval(f, ToScalar(p))) + Times(S, Eval(g, ToScalar(p))))
  {
    var x, z := Eval(f, ToScalar(p)), Eval(g, ToScalar(p));
    RedMul(R, R, Red(x), x);
    RedMul(S, S, Red(z), z);
    RedAdd(Mul(R, Red(x)), Times(R, x), Mul(S, Red(z)), Times(S, z));
  }

  lemma TrueSharesCombine(f: seq<Scalar>, g: seq<Scalar>, R: Element, S: Element, shares: seq<DecryptionShare>)
    requires TrueShares(f, g, R, S, shares)
    ensures
      var xs := Points(ParticipantsOf(shares));
      Same(Partials(shares), Plus(Scale(R, Values(f, xs)), Scale(S, Values(g, xs))))
  {
    forall i | 0 <= i < |shares|
      ensures Red(shares[i].share) ==
        Red(Times(R, Eval(f, ToScalar(shares[i].participant))) + Times(S, Eval(g, ToScalar(shares[i].participant))))
    {
      assert shares[i] in shares;
      TrueShareValue(f, g, R, S, shares[i].participant);
    }
  }

  // The zero sharing cancels: interpolating true shares gives f(0) R.
  lemma ZeroSharingCancels(f: seq<Scalar>, g: seq<Scalar>, R: Element, S: Element, shares: seq<DecryptionShare>)
    requires |f| <= |shares| && |g| <= |shares| && Red(Eval(g, 0)) == 0
    requires DistinctPoints(Points(ParticipantsOf(shares))) && TrueShares(f, g, R, S, shares)
    ensures Red(Dot(Partials(shares), Basis(Points(ParticipantsOf(shares)), 0))) == Red(Times(R, Eval(f, 0)))
  {
    var xs, ws := Points(ParticipantsOf(shares)), Partials(shares);
    var b := Basis(xs, 0);
    var fs, gs := Values(f, xs), Values(g, xs);
    TrueSharesCombine(f, g, R, S, shares);
    DotSame(ws, Plus(Scale(R, fs), Scale(S, gs)), b, b);
    DotCombination(R, fs, S, gs, b);
    LagrangeRecovers(f, xs, fs, 0);
    LagrangeRecovers(g, xs, gs, 0);
    RedMul(R, R, Dot(fs, b), Eval(f, 0));
    RedMul(S, S, Dot(gs, b), 0);
    TimesUnits(S);
    RedAdd(Times(R, Dot(fs, b)), Times(R, Eval(f, 0)), Times(S, Dot(gs, b)), 0);
  }

  // The sender's U = r X is the receiver's f(0) R.
  lemma DhPointsAgree(f: seq<Scalar>, x: Element, r: Scalar)
    requires Red(Eval(f, 0)) == x
    ensures Red(Times(MulGenerator(r), Eval(f, 0))) == ElementMul(x, r)
  {
    RedMul(r, r, x, Eval(f, 0));
    TimesUnits(r);
    TimesCommutes(r, x);
  }

  // True shares of at least threshold-many distinct participants open a sealed payload.
  lemma TrueSharesOpen(o: Oracles, x: Element, r: NonZero, rPrime: NonZero, plaintext: Bytes, ad: Bytes,
                       f: seq<Scalar>, g: seq<Scalar>, S: Element, shares: seq<DecryptionShare>)
    requires Seal(o, x, r, rPrime, plaintext, ad).Ok?
    requires Red(Eval(f, 0)) == x && Red(Eval(g, 0)) == 0 && |f| <= |shares| && |g| <= |shares|
    requires DistinctPoints(Points(ParticipantsOf(shares)))
    requires TrueShares(f, g, Seal(o, x, r, rPrime, plaintext, ad).value.ephemeralPublic, S, shares)
    ensures Opened(o, Seal(o, x, r, rPrime, plaintext, ad).value, shares) == Ok(plaintext)
  {
    var ct := Seal(o, x, r, rPrime, plaintext, ad).value;
    ZeroSharingCancels(f, g, ct.ephemeralPublic, S, shares);
    DhPointsAgree(f, x, r);
    MaskTwice(plaintext, o.keystream(ct.ephemeralPublic, ElementMul(x, r)).value);
  }

  // Nothing but the shared point opens a payload: when the stream is known only at the
  // sender's point, shares open it exactly if they combine to that point.
  lemma OnlySharedPointOpens(o: Oracles, x: Element, r: NonZero, rPrime: NonZero, plaintext: Bytes, ad: Bytes, shares: seq<DecryptionShare>)
    requires Seal(o, x, r, rPrime, plaintext, ad).Ok? && DistinctPoints(Points(ParticipantsOf(shares)))
    ensures
      var ct := Seal(o, x, r, rPrime, plaintext, ad).value;
      var only := o.(keystream := (R, U) => if (R, U) == (MulGenerator(r), ElementMul(x, r)) then o.keystream(R, U) else Err(InvalidShareProof));
      && Seal(only, x, r, rPrime, plaintext, ad) == Ok(ct)
      && (Red(Dot(Partials(shares), Basis(Points(ParticipantsOf(shares)), 0))) == ElementMul(x, r) ==> Opened(only, ct, shares) == Ok(plaintext))
      && (Red(Dot(Partials(shares), Basis(Points(ParticipantsOf(shares)), 0))) != ElementMul(x, r) ==> Opened(only, ct, shares).Err?)
  {
    MaskTwice(plaintext, o.keystream(MulGenerator(r), ElementMul(x, r)).value);
  }

  // A share is made, and a list combined, only in the setup and decryption context and for
  // the ciphertext whose group hash is known.
  lemma ContextBinds(o: Oracles, setup: Bytes, ct: Ciphertext, dc: Bytes, setup': Bytes, ct': Ciphertext, dc': Bytes, secret: SecretShare, xNonce: NonZero, zNonce: NonZero)
    ensures
      var only := o.(hdgd := (s, c, d) => if (s, c, d) == (setup, ct, dc) then o.hdgd(s, c, d) else Err(InvalidShareProof));
      && (DecryptShare(only, setup', secret, ct', dc', ct'.associatedData, xNonce, zNonce).Ok? ==> (setup', ct', dc') == (setup, ct, dc))
      && (DecryptionGroup(only, setup', ct', dc').Ok? ==> (setup', ct', dc') == (setup, ct, dc))
      && DecryptShare(only, setup, secret, ct, dc, ct.associatedData, xNonce, zNonce) == DecryptShare(o, setup, secret, ct, dc, ct.associatedData, xNonce, zNonce)
      && DecryptionGroup(only, setup, ct, dc) == DecryptionGroup(o, setup, ct, dc)
  {
  }

  // The setup: polynomials of degree below the threshold behind the public shares.
  ghost predicate HonestSetup(keys: PublicKeySet, f: seq<Scalar>, g: seq<Scalar>) {
    && |f| <= keys.threshold && |g| <= keys.threshold
    && Explains(f, keys.jointPublicKey, Decryption, keys.publicShares)
    && Explains(g, Identity, Context, keys.publicShares)
  }

  // Participant p's secret share under the two polynomials.
  function SecretOf(f: seq<Scalar>, g: seq<Scalar>, p: ParticipantIndex): SecretShare {
    SecretShare(p, Red(Eval(f, ToScalar(p))), Red(Eval(g, ToScalar(p))))
  }

  // A share some participant produced by running DecryptShare on its secret share.
  ghost predicate HonestlyMade(o: Oracles, setup: Bytes, keys: PublicKeySet, f: seq<Scalar>, g: seq<Scalar>, ct: Ciphertext, dc: Bytes, share: DecryptionShare) {
    && share.participant in keys.publicShares
    && exists xNonce: NonZero, zNonce: NonZero ::
         DecryptShare(o, setup, SecretOf(f, g, share.participant), ct, dc, ct.associatedData, xNonce, zNonce) == Ok(share)
  }

  lemma HonestlyMadePasses(o: Oracles, setup: Bytes, keys: PublicKeySet, f: seq<Scalar>, g: seq<Scalar>, ct: Ciphertext, dc: Bytes, share: DecryptionShare)
    requires HonestSetup(keys, f, g) && HonestlyMade(o, setup, keys, f, g, ct, dc, share)
    ensures o.hdgd(setup, ct, dc).Ok?
    ensures Passes(o, setup, keys, o.hdgd(setup, ct, dc).value, ct, share)
    ensures share.share == TrueShare(f, g, ct.ephemeralPublic, o.hdgd(setup, ct, dc).value, share.participant)
  {
    var p := share.participant;
    var xNonce: NonZero, zNonce: NonZero :| DecryptShare(o, setup, SecretOf(f, g, p), ct, dc, ct.associatedData, xNonce, zNonce) == Ok(share);
    var secret := SecretOf(f, g, p);
    HonestShareVerifies(o, setup, secret, ct, dc, xNonce, zNonce);
    GeneratorLog(secret.decryption);
    GeneratorLog(secret.context);
    assert keys.publicShares[p] == PublicShare(MulGenerator(secret.decryption), MulGenerator(secret.context));
  }

  // Honest shares of exactly threshold-many distinct participants return the plaintext.
  lemma ExactOpens(o: Oracles, setup: Bytes, keys: PublicKeySet, f: seq<Scalar>, g: seq<Scalar>,
                   r: NonZero, rPrime: NonZero, plaintext: Bytes, ad: Bytes, dc: Bytes, shares: seq<DecryptionShare>)
    requires HonestSetup(keys, f, g) && Seal(o, keys.jointPublicKey, r, rPrime, plaintext, ad).Ok?
    requires |shares| == keys.threshold > 0 && DistinctPoints(Points(ParticipantsOf(shares)))
    requires forall s :: s in shares ==> HonestlyMade(o, setup, keys, f, g, Seal(o, keys.jointPublicKey, r, rPrime, plaintext, ad).value, dc, s)
    ensures Exact(o, setup, keys, Seal(o, keys.jointPublicKey, r, rPrime, plaintext, ad).value, dc, shares) == Ok(plaintext)
  {
    var ct := Seal(o, keys.jointPublicKey, r, rPrime, plaintext, ad).value;
    SealedVerifies(o, keys.jointPublicKey, r, rPrime, plaintext, ad);
    forall s | s in shares
      ensures o.hdgd(setup, ct, dc).Ok? && Passes(o, setup, keys, o.hdgd(setup, ct, dc).value, ct, s)
      ensures s.share == TrueShare(f, g, ct.ephemeralPublic, o.hdgd(setup, ct, dc).value, s.participant)
    {
      HonestlyMadePasses(o, setup, keys, f, g, ct, dc, s);
    }
    assert shares[0] in shares;
    var group := o.hdgd(setup, ct, dc).value;
    AllPassNoneMalformed(o, setup, keys, group, ct, shares, |shares|);
    TrueSharesOpen(o, keys.jointPublicKey, r, rPrime, plaintext, ad, f, g, group, shares);
  }

  // The first n shares are of different known participants and pass.
  predicate Flawless(o: Oracles, setup: Bytes, keys: PublicKeySet, group: Element, ct: Ciphertext, shares: seq<DecryptionShare>, n: nat)
    requires n <= |shares|
  {
    forall i :: 0 <= i < n ==> Passes(o, setup, keys, group, ct, shares[i]) && shares[i].participant !in ParticipantsOf(shares)[..i]
  }

  lemma {:induction false} NoneMalformed(o: Oracles, setup: Bytes, keys: PublicKeySet, group: Element, ct: Ciphertext, shares: seq<DecryptionShare>, n: nat)
    requires n <= |shares|
    ensures Malformed(o, setup, keys, group, ct, shares, n) == Ok([]) <==> Flawless(o, setup, keys, group, ct, shares, n)
  {
    if n > 0 {
      NoneMalformed(o, setup, keys, group, ct, shares, n - 1);
    }
  }

  // A quorum opens nothing unless threshold-many different known participants sent passing
  // shares, whoever made the ciphertext.
  lemma QuorumNeedsThreshold(o: Oracles, setup: Bytes, keys: PublicKeySet, ct: Ciphertext, dc: Bytes, shares: seq<DecryptionShare>)
    requires Quorum(o, setup, keys, ct, dc, shares).Ok?
    ensures VerifyCiphertext(o, ct).Ok? && o.hdgd(setup, ct, dc).Ok?
    ensures |PassingParticipants(o, setup, keys, o.hdgd(setup, ct, dc).value, ct, shares)| >= keys.threshold
  {
    SiftedCount(o, setup, keys, o.hdgd(setup, ct, dc).value, ct, shares);
  }

  // Exact combination opens only what threshold-many different participants vouch for:
  // it succeeds if and only if the ciphertext verifies, there are threshold-many shares, all
  // of different known participants and all passing, and their points and the stream exist.
  lemma ExactSucceeds(o: Oracles, setup: Bytes, keys: PublicKeySet, ct: Ciphertext, dc: Bytes, shares: seq<DecryptionShare>)
    ensures Exact(o, setup, keys, ct, dc, shares).Ok? <==>
      && |shares| == keys.threshold && VerifyCiphertext(o, ct).Ok? && o.hdgd(setup, ct, dc).Ok?
      && Flawless(o, setup, keys, o.hdgd(setup, ct, dc).value, ct, shares, |shares|)
      && Opened(o, ct, shares).Ok?
  {
    if |shares| == keys.threshold && VerifyCiphertext(o, ct).Ok? && o.hdgd(setup, ct, dc).Ok? {
      NoneMalformed(o, setup, keys, o.hdgd(setup, ct, dc).value, ct, shares, |shares|);
    }
  }

  lemma {:induction false} AllPassNoneMalformed(o: Oracles, setup: Bytes, keys: PublicKeySet, group: Element, ct: Ciphertext, shares: seq<DecryptionShare>, n: nat)
    requires n <= |shares| && DistinctPoints(Points(ParticipantsOf(shares)))
    requires forall s :: s in shares ==> Passes(o, setup, keys, group, ct, s)
    ensures Malformed(o, setup, keys, group, ct, shares, n) == Ok([])
  {
    if n > 0 {
      AllPassNoneMalformed(o, setup, keys, group, ct, shares, n - 1);
      var ps := ParticipantsOf(shares);
      assert shares[n - 1] in shares;
      assert ps[n - 1] !in ps[..n - 1] by {
        forall i | 0 <= i < n - 1
          ensures ps[i] != ps[n - 1]
        {
          assert Red(Points(ps)[i]) != Red(Points(ps)[n - 1]);
        }
      }
    }
  }

  // On any list in any order: when every passing share is the true one, the
  // plaintext is returned if and only if threshold-many participants sent one.
  lemma QuorumOpens(o: Oracles, setup: Bytes, keys: PublicKeySet, f: seq<Scalar>, g: seq<Scalar>,
                    r: NonZero, rPrime: NonZero, plaintext: Bytes, ad: Bytes, dc: Bytes, group: Element, shares: seq<DecryptionShare>)
    requires HonestSetup(keys, f, g) && Seal(o, keys.jointPublicKey, r, rPrime, plaintext, ad).Ok?
    requires o.hdgd(setup, Seal(o, keys.jointPublicKey, r, rPrime, plaintext, ad).value, dc) == Ok(group)
    requires forall p, p' :: p in keys.publicShares && p' in keys.publicShares && p != p' ==> ToScalar(p) != ToScalar(p')
    requires
      var ct := Seal(o, keys.jointPublicKey, r, rPrime, plaintext, ad).value;
      forall s :: s in shares && Passes(o, setup, keys, group, ct, s) ==> s.share == TrueShare(f, g, ct.ephemeralPublic, group, s.participant)
    ensures
      var ct := Seal(o, keys.jointPublicKey, r, rPrime, plaintext, ad).value;
      Quorum(o, setup, keys, ct, dc, shares) == Ok(plaintext) <==>
        |PassingParticipants(o, setup, keys, group, ct, shares)| >= keys.threshold
  {
    var ct := Seal(o, keys.jointPublicKey, r, rPrime, plaintext, ad).value;
    SealedVerifies(o, keys.jointPublicKey, r, rPrime, plaintext, ad);
    SiftedCount(o, setup, keys, group, ct, shares);
    SiftFacts(o, setup, keys, group, ct, shares);
    var valid := Sift(o, setup, keys, group, ct, shares).valid;
    if |valid| >= keys.threshold {
      var chosen := valid[..keys.threshold];
      forall s | s in chosen
        ensures s in valid
      {
      }
      var ps := ParticipantsOf(chosen);
      forall i, j | 0 <= i < j < |ps|
        ensures Red(Points(ps)[i]) != Red(Points(ps)[j])
      {
        assert valid[i] in valid && valid[j] in valid;
        assert ParticipantsOf(valid)[i] != ParticipantsOf(valid)[j];
      }
      TrueSharesOpen(o, keys.jointPublicKey, r, rPrime, plaintext, ad, f, g, group, chosen);
    }
  }

  // The same value and commitments pass for another challenge under some other hash, as
  // for a sender that can answer again after being rewound.
  ghost predicate Rewindable(o: Oracles, setup: Bytes, keys: PublicKeySet, group: Element, ct: Ciphertext, share: DecryptionShare)
    requires share.participant in keys.publicShares
  {
    var public := keys.publicShares[share.participant];
    exists o': Oracles, again: DecryptionShare ::
      && VerifyDecryptionShare(o', setup, group, ct, again, public).Ok?
      && RecomputedTranscript(group, ct, again, public) == RecomputedTranscript(group, ct, share, public)
      && again.challenge != share.challenge
  }

  lemma RewindableIsTrue(o: Oracles, setup: Bytes, keys: PublicKeySet, f: seq<Scalar>, g: seq<Scalar>, group: Element, ct: Ciphertext, share: DecryptionShare)
    requires HonestSetup(keys, f, g) && Passes(o, setup, keys, group, ct, share) && Rewindable(o, setup, keys, group, ct, share)
    ensures share.share == TrueShare(f, g, ct.ephemeralPublic, group, share.participant)
  {
    var p := share.participant;
    var public := keys.publicShares[p];
    var o': Oracles, again: DecryptionShare :|
      && VerifyDecryptionShare(o', setup, group, ct, again, public).Ok?
      && RecomputedTranscript(group, ct, again, public) == RecomputedTranscript(group, ct, share, public)
      && again.challenge != share.challenge;
    var secret := SecretOf(f, g, p);
    GeneratorLog(secret.decryption);
    GeneratorLog(secret.context);
    assert public == PublicShare(MulGenerator(secret.decryption), MulGenerator(secret.context));
    PassingTwiceIsTrue(o, o', setup, group, ct, share, again, secret.decryption, secret.context);
  }

  // The same without trusting any share: when every passing share could be answered again,
  // the plaintext is returned if and only if threshold-many participants sent a passing one.
  lemma RewindableQuorumOpens(o: Oracles, setup: Bytes, keys: PublicKeySet, f: seq<Scalar>, g: seq<Scalar>,
                              r: NonZero, rPrime: NonZero, plaintext: Bytes, ad: Bytes, dc: Bytes, group: Element, shares: seq<DecryptionShare>)
    requires HonestSetup(keys, f, g) && Seal(o, keys.jointPublicKey, r, rPrime, plaintext, ad).Ok?
    requires o.hdgd(setup, Seal(o, keys.jointPublicKey, r, rPrime, plaintext, ad).value, dc) == Ok(group)
    requires forall p, p' :: p in keys.publicShares && p' in keys.publicShares && p != p' ==> ToScalar(p) != ToScalar(p')
    requires
      var ct := Seal(o, keys.jointPublicKey, r, rPrime, plaintext, ad).value;
      forall s :: s in shares && Passes(o, setup, keys, group, ct, s) ==> Rewindable(o, setup, keys, group, ct, s)
    ensures
      var ct := Seal(o, keys.jointPublicKey, r, rPrime, plaintext, ad).value;
      Quorum(o, setup, keys, ct, dc, shares) == Ok(plaintext) <==>
        |PassingParticipants(o, setup, keys, group, ct, shares)| >= keys.threshold
  {
    var ct := Seal(o, keys.jointPublicKey, r, rPrime, plaintext, ad).value;
    forall s | s in shares && Passes(o, setup, keys, group, ct, s)
      ensures s.share == TrueShare(f, g, ct.ephemeralPublic, group, s.participant)
    {
      RewindableIsTrue(o, setup, keys, f, g, group, ct, s);
    }
    QuorumOpens(o, setup, keys, f, g, r, rPrime, plaintext, ad, dc, group, shares);
  }
}
