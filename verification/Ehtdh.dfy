// Threshold encryption with zero sharing: encrypt.rs and decrypt.rs.
module Ehtdh {
  import opened Wrappers
  import opened Scalars
  import opened Vectors
  import opened Polynomials
  import opened Core
  import opened Shamir
  import opened PublicKeys

  type Bytes = seq<bv8>
  type NonZero = x: int | 0 < x < q witness 1

  // The transcript hashes as arbitrary functions of their bound fields. Hashing to
  // the group never yields the identity and hashing to a scalar never yields zero.
  datatype Oracles = Oracles(
    hegd: (Element, Element, Bytes, Bytes) -> Result<NonZero, EhtdhError>,
    hecd: (Element, Element, Element) -> Result<NonZero, EhtdhError>,
    hdgd: (Bytes, Ciphertext, Bytes) -> Result<NonZero, EhtdhError>,
    hdcd: (Bytes, ShareTranscript) -> Result<NonZero, EhtdhError>,
    keystream: (Element, Element) -> Result<nat -> bv8, EhtdhError>)

  // (ad, c, R, V, e, r'')
  datatype Ciphertext = Ciphertext(
    associatedData: Bytes, encryptedPayload: Bytes, ephemeralPublic: Element, encryptionPoint: Element,
    challenge: Scalar, response: Scalar)

  // (S, X_i, Z_i, W_i, X_i', Z_i', W_i')
  datatype ShareTranscript = ShareTranscript(
    decryptionGroup: Element, publicDecryption: Element, publicContext: Element, share: Element,
    decryptionCommitment: Element, contextCommitment: Element, shareCommitment: Element)

  // ----- sealing -----

  function Masked(target: Bytes, stream: nat -> bv8): (r: Bytes)
    ensures |r| == |target|
  {
    seq(|target|, i requires 0 <= i < |target| => target[i] ^ stream(i))
  }

  lemma XorTwice(x: bv8, y: bv8)
    ensures x ^ y ^ y == x
  {
  }

  lemma MaskTwice(target: Bytes, stream: nat -> bv8)
    ensures Masked(Masked(target, stream), stream) == target
  {
    forall i | 0 <= i < |target|
      ensures Masked(Masked(target, stream), stream)[i] == target[i]
    {
      XorTwice(target[i], stream(i));
    }
  }

  // A masked payload fits every plaintext of its length, each under exactly one stream.
  lemma MaskReaches(target: Bytes, masked: Bytes, stream: nat -> bv8)
    requires |target| == |masked|
    ensures Masked(target, stream) == masked <==> forall i :: 0 <= i < |target| ==> stream(i) == target[i] ^ masked[i]
  {
    if Masked(target, stream) == masked {
      forall i | 0 <= i < |target|
        ensures stream(i) == target[i] ^ masked[i]
      {
        assert masked[i] == Masked(target, stream)[i];
        XorBack(target[i], stream(i));
      }
    } else {
      var i :| 0 <= i < |target| && Masked(target, stream)[i] != masked[i];
      XorBack(target[i], masked[i]);
      assert stream(i) != target[i] ^ masked[i];
    }
  }

  lemma XorBack(x: bv8, y: bv8)
    ensures x ^ (x ^ y) == y
  {
  }

  // The stream keyed by (R, U), applied to the buffer in place.
  method ApplyPayloadMask(o: Oracles, target: array<bv8>, ephemeralPublic: Element, dhPoint: Element)
    returns (r: Option<EhtdhError>)
    modifies target
    ensures match o.keystream(ephemeralPublic, dhPoint)
      case Err(e) => r == Some(e) && target[..] == old(target[..])
      case Ok(stream) => r == None && target[..] == Masked(old(target[..]), stream)
  {
    var material := o.keystream(ephemeralPublic, dhPoint);
    if material.Err? {
      return Some(material.error);
    }
    for i := 0 to target.Length
      invariant forall k :: 0 <= k < i ==> target[k] == old(target[k]) ^ material.value(k)
      invariant forall k :: i <= k < target.Length ==> target[k] == old(target[k])
    {
      target[i] := target[i] ^ material.value(i);
    }
    r := None;
  }

  // Encryption under X with the random scalars r and r'.
  function Seal(o: Oracles, jointPublicKey: Element, r: NonZero, rPrime: NonZero, plaintext: Bytes, ad: Bytes): Result<Ciphertext, EhtdhError> {
    var ephemeral := MulGenerator(r);
    var dhPoint := ElementMul(jointPublicKey, r);
    var stream :- o.keystream(ephemeral, dhPoint);
    var payload := Masked(plaintext, stream);
    var commitment := MulGenerator(rPrime);
    var y :- o.hegd(ephemeral, commitment, ad, payload);
    var v := ElementMul(y, r);
    var e :- o.hecd(y, v, ElementMul(y, rPrime));
    Ok(Ciphertext(ad, payload, ephemeral, v, e, Add(rPrime, Mul(r, e))))
  }

  // The commitments recomputed from a ciphertext's response, the second to the base y.
  function FirstCommitment(ct: Ciphertext): Element {
    ElementSub(MulGenerator(ct.response), ElementMul(ct.ephemeralPublic, ct.challenge))
  }

  function SecondCommitment(ct: Ciphertext, y: Element): Element {
    ElementSub(ElementMul(y, ct.response), ElementMul(ct.encryptionPoint, ct.challenge))
  }

  function VerifyCiphertext(o: Oracles, ct: Ciphertext): Result<(), EhtdhError> {
    if ct.ephemeralPublic == Identity || ct.encryptionPoint == Identity then Err(InvalidCiphertextProof)
    else
      var y :- o.hegd(ct.ephemeralPublic, FirstCommitment(ct), ct.associatedData, ct.encryptedPayload);
      var expected :- o.hecd(y, ct.encryptionPoint, SecondCommitment(ct, y));
      if expected == ct.challenge then Ok(()) else Err(InvalidCiphertextProof)
  }

  // The verifier of a Schnorr response recovers the prover's commitment, to any base.
  lemma SchnorrRecovers(base: Element, secret: Scalar, nonce: Scalar, e: Scalar)
    ensures
      var response := Add(nonce, Mul(e, secret));
      ElementSub(ElementMul(base, response), ElementMul(ElementMul(base, secret), e)) == ElementMul(base, nonce)
  {
    var response := Add(nonce, Mul(e, secret));
    RedAdd(nonce, nonce, Mul(e, secret), Times(e, secret));
    RedMul(base, base, response, nonce + Times(e, secret));
    RedMul(Red(Times(base, secret)), Times(base, secret), e, e);
    RedSub(Red(Times(base, response)), Times(base, nonce + Times(e, secret)),
           Red(Times(Red(Times(base, secret)), e)), Times(Times(base, secret), e));
    TimesDistributes(base, nonce, Times(e, secret));
    TimesAssociates(base, secret, e);
    TimesCommutes(e, secret);
  }

  lemma ProductNonzero(x: Scalar, y: Scalar)
    requires x != 0 && y != 0
    ensures Mul(x, y) != 0
  {
    if Mul(x, y) == 0 {
      NoZeroDivisors(x, y);
    }
  }

  // Every sealed ciphertext carries a valid proof.
  lemma SealedVerifies(o: Oracles, x: Element, r: NonZero, rPrime: NonZero, plaintext: Bytes, ad: Bytes)
    requires Seal(o, x, r, rPrime, plaintext, ad).Ok?
    ensures VerifyCiphertext(o, Seal(o, x, r, rPrime, plaintext, ad).value) == Ok(())
  {
    var ct := Seal(o, x, r, rPrime, plaintext, ad).value;
    var y := o.hegd(ct.ephemeralPublic, MulGenerator(rPrime), ad, ct.encryptedPayload).value;
    ProductNonzero(Generator, r);
    ProductNonzero(y, r);
    TimesCommutes(r, ct.challenge);
    SchnorrRecovers(Generator, r, rPrime, ct.challenge);
    SchnorrRecovers(y, r, rPrime, ct.challenge);
  }

  // Two ciphertexts that verify with the same points and commitments but different
  // challenges: their responses give r with R = r G and V = r Y.
  lemma CiphertextSoundness(o: Oracles, o': Oracles, ct: Ciphertext, ct': Ciphertext, y: NonZero)
    requires VerifyCiphertext(o, ct).Ok? && VerifyCiphertext(o', ct').Ok?
    requires o.hegd(ct.ephemeralPublic, FirstCommitment(ct), ct.associatedData, ct.encryptedPayload) == Ok(y)
    requires o'.hegd(ct'.ephemeralPublic, FirstCommitment(ct'), ct'.associatedData, ct'.encryptedPayload) == Ok(y)
    requires ct.ephemeralPublic == ct'.ephemeralPublic && ct.encryptionPoint == ct'.encryptionPoint
    requires FirstCommitment(ct) == FirstCommitment(ct') && SecondCommitment(ct, y) == SecondCommitment(ct', y)
    requires o.hecd(y, ct.encryptionPoint, SecondCommitment(ct, y)) != o'.hecd(y, ct'.encryptionPoint, SecondCommitment(ct', y))
    ensures
      var r := Mul(Sub(ct.response, ct'.response), Inverse(Sub(ct.challenge, ct'.challenge)));
      ct.ephemeralPublic == MulGenerator(r) && ct.encryptionPoint == ElementMul(y, r)
  {
    assert ct.challenge != ct'.challenge;
    ExtractedBoth(ct.ephemeralPublic, ct.encryptionPoint, y, ct.response, ct.challenge, ct'.response, ct'.challenge);
  }

  lemma ExtractedBoth(R: Element, V: Element, y: Element, s: Scalar, e: Scalar, s': Scalar, e': Scalar)
    requires e != e' && Sub(MulGenerator(s), Mul(R, e)) == Sub(MulGenerator(s'), Mul(R, e'))
    requires Sub(Mul(y, s), Mul(V, e)) == Sub(Mul(y, s'), Mul(V, e'))
    ensures var r := Mul(Sub(s, s'), Inverse(Sub(e, e'))); R == MulGenerator(r) && V == ElementMul(y, r)
  {
    RecoverLinear(s, R, e, s', e');
    RecoverBase(y, V, s, e, s', e');
    DifferenceNonzeroScalar(e, e');
    ExtractedIs(R, s, s', e, e');
    GeneratorLog(R);
    SameLogarithm(y, R, V, s - s', e - e');
  }

  lemma SameLogarithm(y: Element, R: Element, V: Element, ds: int, de: int)
    requires Red(ds) == Red(Times(R, de)) && Red(Times(y, ds)) == Red(Times(V, de)) && Red(de) != 0
    ensures V == Mul(y, R)
  {
    RedMul(y, y, ds, Times(R, de));
    TimesAssociates(y, R, de);
    TimesCommutes(Times(y, R), de);
    TimesCommutes(V, de);
    CancelFactor(de, V, Times(y, R));
  }

  lemma RecoverBase(y: Element, V: Element, s: Scalar, e: Scalar, s': Scalar, e': Scalar)
    requires Sub(Mul(y, s), Mul(V, e)) == Sub(Mul(y, s'), Mul(V, e'))
    ensures Red(Times(y, s - s')) == Red(Times(V, e - e'))
  {
    RedSub(Mul(y, s), Times(y, s), Mul(V, e), Times(V, e));
    RedSub(Mul(y, s'), Times(y, s'), Mul(V, e'), Times(V, e'));
    RedAdd(Times(y, s) - Times(V, e), Times(y, s') - Times(V, e'), Times(V, e) - Times(y, s'), Times(V, e) - Times(y, s'));
    TimesDistributes(y, s, s');
    TimesDistributes(V, e, e');
  }

  lemma ExtractedIs(x: Scalar, s: Scalar, s': Scalar, e: Scalar, e': Scalar)
    requires Red(s - s') == Red(Times(x, e - e')) && Red(e - e') != 0
    ensures Mul(Sub(s, s'), Inverse(Sub(e, e'))) == x
  {
    var d := Sub(e, e');
    InverseLaw(d);
    RedMul(x, x, e - e', d);
    RedMul(Sub(s, s'), Times(x, d), Inverse(d), Inverse(d));
    TimesAssociates(x, d, Inverse(d));
    RedMul(x, x, Times(d, Inverse(d)), 1);
    TimesUnits(x);
  }

  // The hashes answer the queries of one ciphertext and no others.
  function AnswerOnly(o: Oracles, ct: Ciphertext, y: NonZero): Oracles {
    o.(hegd := (R, c, ad, payload) =>
          if (R, c, ad, payload) == (ct.ephemeralPublic, FirstCommitment(ct), ct.associatedData, ct.encryptedPayload) then Ok(y) else Err(InvalidCiphertextProof),
       hecd := (base, V, c) =>
          if (base, V, c) == (y, ct.encryptionPoint, SecondCommitment(ct, y)) then o.hecd(base, V, c) else Err(InvalidCiphertextProof))
  }

  // The proof binds every field: with hashes that answer only a verifying ciphertext's
  // queries, that ciphertext still verifies and nothing else does.
  lemma CiphertextProofBinds(o: Oracles, ct: Ciphertext, other: Ciphertext)
    requires VerifyCiphertext(o, ct).Ok?
    ensures o.hegd(ct.ephemeralPublic, FirstCommitment(ct), ct.associatedData, ct.encryptedPayload).Ok?
    ensures
      var y := o.hegd(ct.ephemeralPublic, FirstCommitment(ct), ct.associatedData, ct.encryptedPayload).value;
      VerifyCiphertext(AnswerOnly(o, ct, y), other).Ok? <==> other == ct
  {
    var y := o.hegd(ct.ephemeralPublic, FirstCommitment(ct), ct.associatedData, ct.encryptedPayload).value;
    var only := AnswerOnly(o, ct, y);
    if VerifyCiphertext(only, other).Ok? {
      assert other.challenge == ct.challenge;
      SameResponse(ct.response, other.response, ElementMul(ct.ephemeralPublic, ct.challenge));
    }
  }

  lemma SameResponse(s: Scalar, s': Scalar, p: Element)
    requires ElementSub(MulGenerator(s), p) == ElementSub(MulGenerator(s'), p)
    ensures s == s'
  {
    GeneratorLog(s);
    GeneratorLog(s');
    RedAdd(s - p, s' - p, p, p);
  }

  // ----- decryption shares -----

  // (x_i, z_i)
  datatype SecretShare = SecretShare(participant: ParticipantIndex, decryption: Scalar, context: Scalar)

  // (W_i, e_i, x_i'', z_i'')
  datatype DecryptionShare = DecryptionShare(
    participant: ParticipantIndex, share: Element, challenge: Scalar, decryptionResponse: Scalar, contextResponse: Scalar)

  // W_i = x_i R + z_i S
  function ShareOf(secret: SecretShare, ephemeralPublic: Element, group: Element): Element {
    ElementAdd(ElementMul(ephemeralPublic, secret.decryption), ElementMul(group, secret.context))
  }

  // Partial decryption with the random nonces x_i', z_i'.
  function DecryptShare(o: Oracles, setup: Bytes, secret: SecretShare, ct: Ciphertext, dc: Bytes, expectedAd: Bytes, xNonce: NonZero, zNonce: NonZero)
    : Result<DecryptionShare, EhtdhError>
  {
    if ct.associatedData != expectedAd then Err(AssociatedDataMismatch)
    else
      var _ :- VerifyCiphertext(o, ct);
      var group :- o.hdgd(setup, ct, dc);
      var share := ShareOf(secret, ct.ephemeralPublic, group);
      var commitment := ElementAdd(ElementMul(ct.ephemeralPublic, xNonce), ElementMul(group, zNonce));
      var e :- o.hdcd(setup, ShareTranscript(
        group, MulGenerator(secret.decryption), MulGenerator(secret.context), share,
        MulGenerator(xNonce), MulGenerator(zNonce), commitment));
      Ok(DecryptionShare(secret.participant, share, e,
        Add(xNonce, Mul(e, secret.decryption)), Add(zNonce, Mul(e, secret.context))))
  }

  // The commitments recomputed from a share's responses.
  function RecomputedTranscript(group: Element, ct: Ciphertext, share: DecryptionShare, public: PublicShare): ShareTranscript {
    ShareTranscript(
      group, public.decryption, public.context, share.share,
      ElementSub(MulGenerator(share.decryptionResponse), ElementMul(public.decryption, share.challenge)),
      ElementSub(MulGenerator(share.contextResponse), ElementMul(public.context, share.challenge)),
      ElementSub(
        ElementAdd(ElementMul(ct.ephemeralPublic, share.decryptionResponse), ElementMul(group, share.contextResponse)),
        ElementMul(share.share, share.challenge)))
  }

  function VerifyDecryptionShare(o: Oracles, setup: Bytes, group: Element, ct: Ciphertext, share: DecryptionShare, public: PublicShare): Result<(), EhtdhError> {
    var expected :- o.hdcd(setup, RecomputedTranscript(group, ct, share, public));
    if expected == share.challenge then Ok(()) else Err(InvalidShareProof)
  }

  // The two-base analogue of SchnorrRecovers.
  lemma DoubleSchnorrRecovers(b: Element, c: Element, x: Scalar, z: Scalar, xNonce: Scalar, zNonce: Scalar, e: Scalar)
    ensures
      var xr, zr := Add(xNonce, Mul(e, x)), Add(zNonce, Mul(e, z));
      ElementSub(ElementAdd(ElementMul(b, xr), ElementMul(c, zr)),
                 ElementMul(ElementAdd(ElementMul(b, x), ElementMul(c, z)), e))
      == ElementAdd(ElementMul(b, xNonce), ElementMul(c, zNonce))
  {
    var xr, zr := Add(xNonce, Mul(e, x)), Add(zNonce, Mul(e, z));
    SchnorrRecovers(b, x, xNonce, e);
    SchnorrRecovers(c, z, zNonce, e);
    SplitDifference(Mul(b, xr), Mul(c, zr), Mul(b, x), Mul(c, z), e);
  }

  // (p + p') - (s + s') e is the sum of p - s e and p' - s' e.
  lemma SplitDifference(p: Scalar, p': Scalar, s: Scalar, s': Scalar, e: Scalar)
    ensures Sub(Add(p, p'), Mul(Add(s, s'), e)) == Add(Sub(p, Mul(s, e)), Sub(p', Mul(s', e)))
  {
    ReducedDifference(Add(p, p'), p + p', Add(s, s'), s + s', e);
    ReducedDifference(p, p, s, s, e);
    ReducedDifference(p', p', s', s', e);
    RedAdd(Sub(p, Mul(s, e)), p - Times(s, e), Sub(p', Mul(s', e)), p' - Times(s', e));
    TimesDistributes(e, s, s');
  }

  lemma ReducedDifference(p: Scalar, p': int, s: Scalar, s': int, e: Scalar)
    requires Red(p) == Red(p') && Red(s) == Red(s')
    ensures Sub(p, Mul(s, e)) == Red(p' - Times(s', e)) && Red(Sub(p, Mul(s, e))) == Red(p' - Times(s', e))
  {
    RedMul(s, s', e, e);
    RedSub(p, p', Mul(s, e), Times(s', e));
  }

  // Hashes that always answer.
  ghost predicate Total(o: Oracles) {
    && (forall r: Element, c: Element, ad: Bytes, payload: Bytes :: o.hegd(r, c, ad, payload).Ok?)
    && (forall y: Element, v: Element, c: Element :: o.hecd(y, v, c).Ok?)
    && (forall setup: Bytes, ct: Ciphertext, dc: Bytes :: o.hdgd(setup, ct, dc).Ok?)
    && (forall setup: Bytes, t: ShareTranscript :: o.hdcd(setup, t).Ok?)
    && (forall r: Element, u: Element :: o.keystream(r, u).Ok?)
  }

  // Then sealing never fails, and a share is made exactly of a verifying ciphertext with the
  // expected associated data, in particular of every sealed one.
  lemma SealsAndShares(o: Oracles, x: Element, r: NonZero, rPrime: NonZero, plaintext: Bytes, ad: Bytes,
                       setup: Bytes, secret: SecretShare, ct: Ciphertext, dc: Bytes, expectedAd: Bytes, xNonce: NonZero, zNonce: NonZero)
    requires Total(o)
    ensures Seal(o, x, r, rPrime, plaintext, ad).Ok? && Seal(o, x, r, rPrime, plaintext, ad).value.associatedData == ad
    ensures |Seal(o, x, r, rPrime, plaintext, ad).value.encryptedPayload| == |plaintext|
    ensures DecryptShare(o, setup, secret, ct, dc, expectedAd, xNonce, zNonce).Ok? <==> ct.associatedData == expectedAd && VerifyCiphertext(o, ct).Ok?
    ensures DecryptShare(o, setup, secret, Seal(o, x, r, rPrime, plaintext, ad).value, dc, ad, xNonce, zNonce).Ok?
  {
    SealedVerifies(o, x, r, rPrime, plaintext, ad);
  }

  // An honest share passes verification against its own public share.
  lemma HonestShareVerifies(o: Oracles, setup: Bytes, secret: SecretShare, ct: Ciphertext, dc: Bytes, xNonce: NonZero, zNonce: NonZero)
    requires DecryptShare(o, setup, secret, ct, dc, ct.associatedData, xNonce, zNonce).Ok?
    ensures
      var share := DecryptShare(o, setup, secret, ct, dc, ct.associatedData, xNonce, zNonce).value;
      var group := o.hdgd(setup, ct, dc).value;
      && share.participant == secret.participant
      && share.share == ShareOf(secret, ct.ephemeralPublic, group)
      && VerifyDecryptionShare(o, setup, group, ct, share,
           PublicShare(MulGenerator(secret.decryption), MulGenerator(secret.context))) == Ok(())
  {
    var share := DecryptShare(o, setup, secret, ct, dc, ct.associatedData, xNonce, zNonce).value;
    var group := o.hdgd(setup, ct, dc).value;
    SchnorrRecovers(Generator, secret.decryption, xNonce, share.challenge);
    SchnorrRecovers(Generator, secret.context, zNonce, share.challenge);
    DoubleSchnorrRecovers(ct.ephemeralPublic, group, secret.decryption, secret.context, xNonce, zNonce, share.challenge);
  }

  // Under one hash, a statement and its commitments have at most one passing answer.
  lemma OnePassingAnswer(o: Oracles, setup: Bytes, group: Element, ct: Ciphertext, a: DecryptionShare, b: DecryptionShare, public: PublicShare)
    requires RecomputedTranscript(group, ct, a, public) == RecomputedTranscript(group, ct, b, public)
    requires VerifyDecryptionShare(o, setup, group, ct, a, public).Ok? && VerifyDecryptionShare(o, setup, group, ct, b, public).Ok?
    ensures a.challenge == b.challenge && a == b.(participant := a.participant)
  {
    SameResponse(a.decryptionResponse, b.decryptionResponse, ElementMul(public.decryption, a.challenge));
    SameResponse(a.contextResponse, b.contextResponse, ElementMul(public.context, a.challenge));
  }

  // A share that passes forces x_i R + z_i S as its value once the same value and
  // commitments pass for another challenge, whatever the second hash.
  lemma PassingTwiceIsTrue(o: Oracles, o': Oracles, setup: Bytes, group: Element, ct: Ciphertext, a: DecryptionShare, b: DecryptionShare, x: Scalar, z: Scalar)
    requires
      var public := PublicShare(MulGenerator(x), MulGenerator(z));
      && VerifyDecryptionShare(o, setup, group, ct, a, public).Ok? && VerifyDecryptionShare(o', setup, group, ct, b, public).Ok?
      && RecomputedTranscript(group, ct, a, public) == RecomputedTranscript(group, ct, b, public)
      && o.hdcd(setup, RecomputedTranscript(group, ct, a, public)) != o'.hdcd(setup, RecomputedTranscript(group, ct, b, public))
    ensures a.share == ShareOf(SecretShare(1, x, z), ct.ephemeralPublic, group)
  {
    SpecialSoundness(group, ct, a, b, x, z);
  }

  // Changing a passing share's challenge moves its commitments, unless all the points are
  // the identity, and passes only if the hash of the moved commitments is the new challenge.
  lemma ChangedChallenge(o: Oracles, setup: Bytes, group: Element, ct: Ciphertext, a: DecryptionShare, e: Scalar, public: PublicShare)
    requires VerifyDecryptionShare(o, setup, group, ct, a, public).Ok? && e != a.challenge
    ensures
      var b := a.(challenge := e);
      var was, now := RecomputedTranscript(group, ct, a, public), RecomputedTranscript(group, ct, b, public);
      && (was == now <==> public.decryption == public.context == a.share == Identity)
      && (VerifyDecryptionShare(o, setup, group, ct, b, public).Ok? <==> was != now && o.hdcd(setup, now) == Ok(e))
  {
    var b := a.(challenge := e);
    MovedCommitment(MulGenerator(a.decryptionResponse), public.decryption, a.challenge, e);
    MovedCommitment(MulGenerator(a.contextResponse), public.context, a.challenge, e);
    MovedCommitment(ElementAdd(ElementMul(ct.ephemeralPublic, a.decryptionResponse), ElementMul(group, a.contextResponse)), a.share, a.challenge, e);
  }

  lemma MovedCommitment(p: Element, base: Element, e: Scalar, e': Scalar)
    requires e != e'
    ensures ElementSub(p, ElementMul(base, e)) == ElementSub(p, ElementMul(base, e')) <==> base == Identity
  {
    if base == Identity {
      TimesUnits(e);
      TimesUnits(e');
    } else if ElementSub(p, ElementMul(base, e)) == ElementSub(p, ElementMul(base, e')) {
      var m, m' := Mul(base, e), Mul(base, e');
      RedSub(p, p, p - m, p - m');
      RedMul(base, base, e, e);
      CancelFactor(base, e, e');
    }
  }

  // A hash under which both the share and its copy with another challenge pass.
  lemma ChangedChallengeCanPass(o: Oracles, setup: Bytes, group: Element, ct: Ciphertext, a: DecryptionShare, e: NonZero, public: PublicShare)
    requires VerifyDecryptionShare(o, setup, group, ct, a, public).Ok? && e != a.challenge && public.decryption != Identity
    ensures exists o' :: VerifyDecryptionShare(o', setup, group, ct, a, public).Ok? && VerifyDecryptionShare(o', setup, group, ct, a.(challenge := e), public).Ok?
  {
    ChangedChallenge(o, setup, group, ct, a, e, public);
    var was: NonZero := a.challenge;
    var o' := o.(hdcd := (_, t) => if t == RecomputedTranscript(group, ct, a, public) then Ok(was) else Ok(e));
    assert VerifyDecryptionShare(o', setup, group, ct, a, public).Ok? && VerifyDecryptionShare(o', setup, group, ct, a.(challenge := e), public).Ok?;
  }

  // The proof binds its whole statement: with a hash that answers only a passing share's
  // query, a share passes for a setup, group and public share exactly if all are the same.
  lemma ShareProofBinds(o: Oracles, setup: Bytes, group: Element, ct: Ciphertext, a: DecryptionShare, public: PublicShare,
                        setup': Bytes, group': Element, b: DecryptionShare, public': PublicShare)
    requires VerifyDecryptionShare(o, setup, group, ct, a, public).Ok?
    ensures
      var asked := (setup, RecomputedTranscript(group, ct, a, public));
      var only := o.(hdcd := (s, t) => if (s, t) == asked then o.hdcd(s, t) else Err(InvalidShareProof));
      VerifyDecryptionShare(only, setup', group', ct, b, public').Ok? <==>
        setup' == setup && group' == group && public' == public && b == a.(participant := b.participant)
  {
    var asked := (setup, RecomputedTranscript(group, ct, a, public));
    var only := o.(hdcd := (s, t) => if (s, t) == asked then o.hdcd(s, t) else Err(InvalidShareProof));
    if VerifyDecryptionShare(only, setup', group', ct, b, public').Ok? {
      assert b.challenge == a.challenge;
      SameResponse(a.decryptionResponse, b.decryptionResponse, ElementMul(public.decryption, a.challenge));
      SameResponse(a.contextResponse, b.contextResponse, ElementMul(public.context, a.challenge));
    }
  }

  // Two accepting responses to different challenges on the same commitments force
  // the share to be x_i R + z_i S for the secrets behind the public share.
  lemma SpecialSoundness(group: Element, ct: Ciphertext, a: DecryptionShare, b: DecryptionShare, x: Scalar, z: Scalar)
    requires a.share == b.share && a.challenge != b.challenge
    requires
      var public := PublicShare(MulGenerator(x), MulGenerator(z));
      RecomputedTranscript(group, ct, a, public) == RecomputedTranscript(group, ct, b, public)
    ensures a.share == ShareOf(SecretShare(1, x, z), ct.ephemeralPublic, group)
  {
    var R, W := ct.ephemeralPublic, a.share;
    var de := a.challenge - b.challenge;
    var dx, dz := a.decryptionResponse - b.decryptionResponse, a.contextResponse - b.contextResponse;
    GeneratorLog(x);
    GeneratorLog(z);
    RecoverLinear(a.decryptionResponse, x, a.challenge, b.decryptionResponse, b.challenge);
    RecoverLinear(a.contextResponse, z, a.challenge, b.contextResponse, b.challenge);
    RecoverShare(R, group, W, a, b);
    // de * W == dx * R + dz * S == de * (x R + z S)
    DifferenceNonzeroScalar(a.challenge, b.challenge);
    ShareFromDifferences(R, group, W, x, z, de, dx, dz);
  }

  lemma ShareFromDifferences(R: Element, S: Element, W: Element, x: Scalar, z: Scalar, de: int, dx: int, dz: int)
    requires Red(de) != 0 && Red(Times(de, W)) == Red(Times(R, dx) + Times(S, dz))
    requires Red(dx) == Red(Times(x, de)) && Red(dz) == Red(Times(z, de))
    ensures W == Add(Mul(R, x), Mul(S, z))
  {
    RedMul(R, R, dx, Times(x, de));
    RedMul(S, S, dz, Times(z, de));
    RedAdd(Times(R, dx), Times(R, Times(x, de)), Times(S, dz), Times(S, Times(z, de)));
    TimesAssociates(R, x, de);
    TimesAssociates(S, z, de);
    TimesDistributes(de, Times(R, x), Times(S, z));
    TimesCommutes(de, Times(R, x) + Times(S, z));
    CancelFactor(de, W, Times(R, x) + Times(S, z));
    RedAdd(Mul(R, x), Times(R, x), Mul(S, z), Times(S, z));
  }

  lemma DifferenceNonzeroScalar(x: Scalar, y: Scalar)
    requires x != y
    ensures Red(x - y) != 0
  {
    DifferenceNonzero(x, y);
  }

  lemma RecoverLinear(s: Scalar, x: Scalar, e: Scalar, s': Scalar, e': Scalar)
    requires Sub(MulGenerator(s), Mul(x, e)) == Sub(MulGenerator(s'), Mul(x, e'))
    ensures Red(s - s') == Red(Times(x, e - e'))
  {
    GeneratorLog(s);
    GeneratorLog(s');
    RedSub(s, s, Mul(x, e), Times(x, e));
    RedSub(s', s', Mul(x, e'), Times(x, e'));
    RedAdd(s - Times(x, e), s' - Times(x, e'), Times(x, e) - s', Times(x, e) - s');
    TimesDistributes(x, e, e');
  }

  lemma RecoverShare(R: Element, S: Element, W: Element, a: DecryptionShare, b: DecryptionShare)
    requires
      Sub(Add(Mul(R, a.decryptionResponse), Mul(S, a.contextResponse)), Mul(W, a.challenge)) ==
      Sub(Add(Mul(R, b.decryptionResponse), Mul(S, b.contextResponse)), Mul(W, b.challenge))
    ensures Red(Times(a.challenge - b.challenge, W)) ==
      Red(Times(R, a.decryptionResponse - b.decryptionResponse) + Times(S, a.contextResponse - b.contextResponse))
  {
    var l := ExpandShare(R, S, W, a.decryptionResponse, a.contextResponse, a.challenge);
    var r := ExpandShare(R, S, W, b.decryptionResponse, b.contextResponse, b.challenge);
    var left := Times(a.challenge - b.challenge, W);
    TimesDistributes(R, a.decryptionResponse, b.decryptionResponse);
    TimesDistributes(S, a.contextResponse, b.contextResponse);
    TimesDistributes(W, a.challenge, b.challenge);
    TimesCommutes(a.challenge - b.challenge, W);
    RedSub(l, r, r, r);
    RedAdd(l - r, 0, left, left);
  }

  lemma ExpandShare(R: Element, S: Element, W: Element, x: Scalar, z: Scalar, e: Scalar) returns (exact: int)
    ensures exact == Times(R, x) + Times(S, z) - Times(W, e)
    ensures Sub(Add(Mul(R, x), Mul(S, z)), Mul(W, e)) == Red(exact)
  {
    exact := Times(R, x) + Times(S, z) - Times(W, e);
    RedAdd(Mul(R, x), Times(R, x), Mul(S, z), Times(S, z));
    RedSub(Add(Mul(R, x), Mul(S, z)), Times(R, x) + Times(S, z), Mul(W, e), Times(W, e));
  }
}
