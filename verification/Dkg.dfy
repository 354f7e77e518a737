// Distributed key generation: dkg.rs.
//
// Hashes and the proof backend are parameters. A backend is only asked to be complete
// and to derive the same pad on both sides.
module Dkg {
  import opened Wrappers
  import opened Bits
  import opened Scalars
  import opened Vectors
  import opened Polynomials
  import opened Core
  import opened Shamir
  import opened Feldman
  import opened OrderedMap

  datatype DkgConfig = DkgConfig(threshold: nat, sessionId: Bytes, beta: Scalar, registry: map<ParticipantIndex, Element>) {
    function Indexes(): (ps: seq<ParticipantIndex>) {
      InOrder(registry.Keys)
    }
  }

  // What one batched proof says about one receiver.
  datatype EvrfStatement = EvrfStatement(
    sessionId: Bytes, registryRoot: Bytes, threshold: nat, dealer: ParticipantIndex, receiver: ParticipantIndex,
    nonce: Bytes, beta: Scalar, dealerKey: Element, receiverKey: Element, coefficients: seq<Element>,
    shareCommitment: Element, padCommitment: Element, encryptedShare: Scalar, transcriptRoot: Bytes)

  datatype EvrfWitness = EvrfWitness(identitySecret: Scalar, coefficients: seq<Scalar>, share: Scalar, pad: Scalar)

  datatype EncryptedShare = EncryptedShare(padCommitment: Element, encryptedShare: Scalar)

  type EncryptedShares = map<ParticipantIndex, EncryptedShare>

  datatype DealerMessage = DealerMessage(
    sessionId: Bytes, registryRoot: Bytes, dealer: ParticipantIndex, nonce: Bytes,
    commitment: seq<Element>, encryptedShares: EncryptedShares, proof: Bytes, transcriptRoot: Bytes)

  datatype DkgDealing = DkgDealing(message: DealerMessage, privateShare: Share)

  datatype DkgOutput = DkgOutput(publicKey: Element, secretShare: Share, publicKeyShares: map<ParticipantIndex, Element>, transcriptRoot: Bytes)

  // The proof backend and the transcript hashes.
  datatype Backend = Backend(
    pad: (Bytes, Scalar, Scalar, Element, Element) -> Result<Scalar, Error>,
    prove: (seq<EvrfStatement>, seq<EvrfWitness>, Bytes) -> Result<Bytes, Error>,
    verify: (seq<EvrfStatement>, Bytes) -> bool,
    verifyAll: seq<(seq<EvrfStatement>, Bytes)> -> Result<(), Error>,
    registryRoot: map<ParticipantIndex, Element> -> Bytes,
    dealingRoot: (Bytes, Bytes, ParticipantIndex, Bytes, seq<Element>, EncryptedShares) -> Bytes,
    completionRoot: seq<(ParticipantIndex, Bytes)> -> Bytes)
  {
    // The relation a batched proof attests to, for one receiver.
    predicate Witnessed(st: EvrfStatement, wit: EvrfWitness) {
      && MulGenerator(wit.identitySecret) == st.dealerKey && st.coefficients == Commit(wit.coefficients)
      && wit.share == Red(Eval(wit.coefficients, ToScalar(st.receiver))) && st.shareCommitment == MulGenerator(wit.share)
      && pad(st.nonce, st.beta, wit.identitySecret, st.receiverKey, st.receiverKey) == Ok(wit.pad)
      && st.padCommitment == MulGenerator(wit.pad) && st.encryptedShare == Add(wit.share, wit.pad)
    }

    predicate AllWitnessed(statements: seq<EvrfStatement>, witnesses: seq<EvrfWitness>) {
      |statements| == |witnesses| && forall i :: 0 <= i < |statements| ==> Witnessed(statements[i], witnesses[i])
    }

    // Proofs of true statements are produced and verify, alone and together.
    ghost predicate Complete() {
      && (forall statements: seq<EvrfStatement>, witnesses: seq<EvrfWitness>, coins: Bytes :: AllWitnessed(statements, witnesses) ==>
          prove(statements, witnesses, coins).Ok? && verify(statements, prove(statements, witnesses, coins).value))
      && (forall batches: seq<(seq<EvrfStatement>, Bytes)> :: AllVerify(batches) ==> verifyAll(batches).Ok?)
    }

    predicate AllVerify(batches: seq<(seq<EvrfStatement>, Bytes)>) {
      forall i :: 0 <= i < |batches| ==> verify(batches[i].0, batches[i].1)
    }

    // Dealer and receiver derive the same pad from each other's keys.
    ghost predicate Symmetric() {
      forall nonce: Bytes, beta: Scalar, a: Scalar, b: Scalar, key: Element ::
        pad(nonce, beta, a, MulGenerator(b), key) == pad(nonce, beta, b, MulGenerator(a), key)
    }
  }

  // The default pad hashes the shared point of the two identity keys.
  function DefaultPad(hash: (Bytes, Element, Element) -> Result<Scalar, Error>, nonce: Bytes, secret: Scalar, peer: Element, receiverKey: Element): Result<Scalar, Error> {
    hash(nonce, receiverKey, ElementMul(peer, secret))
  }

  lemma DefaultPadSymmetric(hash: (Bytes, Element, Element) -> Result<Scalar, Error>, nonce: Bytes, a: Scalar, b: Scalar, receiverKey: Element)
    ensures DefaultPad(hash, nonce, a, MulGenerator(b), receiverKey) == DefaultPad(hash, nonce, b, MulGenerator(a), receiverKey)
  {
    GeneratorLog(a);
    GeneratorLog(b);
    TimesCommutes(a, b);
  }

  // ----- one dealing -----

  // The receivers of a dealer, in the order of the registry.
  function Others(ps: seq<ParticipantIndex>, dealer: ParticipantIndex): seq<ParticipantIndex> {
    if |ps| == 0 then []
    else Others(ps[..|ps| - 1], dealer) + if ps[|ps| - 1] != dealer then [ps[|ps| - 1]] else []
  }

  lemma {:induction false} OthersAre(ps: seq<ParticipantIndex>, dealer: ParticipantIndex)
    ensures forall p :: p in Others(ps, dealer) <==> p in ps && p != dealer
  {
    if |ps| > 0 {
      OthersAre(ps[..|ps| - 1], dealer);
      assert ps == ps[..|ps| - 1] + [ps[|ps| - 1]];
    }
  }

  function StatementFor(b: Backend, config: DkgConfig, dealer: ParticipantIndex, receiver: ParticipantIndex, nonce: Bytes, shareCommitment: Element, coefficients: seq<Element>, share: EncryptedShare, root: Bytes): EvrfStatement
    requires dealer in config.registry && receiver in config.registry
  {
    EvrfStatement(config.sessionId, b.registryRoot(config.registry), config.threshold, dealer, receiver, nonce, config.beta,
      config.registry[dealer], config.registry[receiver], coefficients, shareCommitment, share.padCommitment, share.encryptedShare, root)
  }

  // The verifier's view of one receiver: the share commitment is recovered from the
  // encrypted share and its pad commitment.
  function PublicStatement(b: Backend, config: DkgConfig, m: DealerMessage, receiver: ParticipantIndex): EvrfStatement
    requires m.dealer in config.registry && receiver in config.registry && receiver in m.encryptedShares
  {
    var share := m.encryptedShares[receiver];
    StatementFor(b, config, m.dealer, receiver, m.nonce, ElementSub(MulGenerator(share.encryptedShare), share.padCommitment), m.commitment, share, m.transcriptRoot)
  }

  predicate SharesCover(config: DkgConfig, m: DealerMessage) {
    m.encryptedShares.Keys == config.registry.Keys - {m.dealer}
  }

  function StatementsOf(b: Backend, config: DkgConfig, m: DealerMessage): (r: seq<EvrfStatement>)
    requires m.dealer in config.registry && SharesCover(config, m)
  {
    var rs := Others(config.Indexes(), m.dealer);
    OthersAre(config.Indexes(), m.dealer);
    InOrderFacts(config.registry.Keys);
    assert forall i :: 0 <= i < |rs| ==> rs[i] in rs;
    seq(|rs|, i requires 0 <= i < |rs| => PublicStatement(b, config, m, rs[i]))
  }

  function FoldedStatements(b: Backend, config: DkgConfig, m: DealerMessage, n: nat): seq<EvrfStatement>
    requires m.dealer in config.registry && SharesCover(config, m)
    decreases n
  {
    if n == 0 then StatementsOf(b, config, m) else FoldedStatements(b, config, m, n - 1)
  }

  // The statements of a message, receiver by receiver. Folded, as `PublicStatementsAre` says.
  function PublicStatements(b: Backend, config: DkgConfig, m: DealerMessage): seq<EvrfStatement>
    requires m.dealer in config.registry && SharesCover(config, m)
  {
    FoldedStatements(b, config, m, q)
  }

  lemma UnfoldStatements(b: Backend, config: DkgConfig, m: DealerMessage, n: nat)
    requires m.dealer in config.registry && SharesCover(config, m)
    ensures FoldedStatements(b, config, m, n) == StatementsOf(b, config, m)
    decreases n
  {
  }

  lemma PublicStatementsAre(b: Backend, config: DkgConfig, m: DealerMessage)
    requires m.dealer in config.registry && SharesCover(config, m)
    ensures
      var rs := Others(config.Indexes(), m.dealer);
      && |PublicStatements(b, config, m)| == |rs|
      && forall k :: 0 <= k < |rs| ==> Covers(config, m, rs[k]) && PublicStatements(b, config, m)[k] == PublicStatement(b, config, m, rs[k])
  {
    UnfoldStatements(b, config, m, q);
    var rs := Others(config.Indexes(), m.dealer);
    OthersAre(config.Indexes(), m.dealer);
    InOrderFacts(config.registry.Keys);
    assert forall k :: 0 <= k < |rs| ==> rs[k] in rs;
  }

  function RootOf(b: Backend, m: DealerMessage): Bytes {
    b.dealingRoot(m.sessionId, m.registryRoot, m.dealer, m.nonce, m.commitment, m.encryptedShares)
  }

  // The first encrypted share for nobody, else the first missing one.
  function FirstUnexpected(keys: seq<ParticipantIndex>, m: DealerMessage, config: DkgConfig): Option<ParticipantIndex> {
    if |keys| == 0 then None
    else if !Expected(keys[0], m, config) then Some(keys[0])
    else FirstUnexpected(keys[1..], m, config)
  }

  function FirstMissing(receivers: seq<ParticipantIndex>, m: DealerMessage): Option<ParticipantIndex> {
    if |receivers| == 0 then None
    else if receivers[0] !in m.encryptedShares then Some(receivers[0])
    else FirstMissing(receivers[1..], m)
  }

  lemma {:induction false} NoneUnexpected(keys: seq<ParticipantIndex>, m: DealerMessage, config: DkgConfig)
    ensures FirstUnexpected(keys, m, config).None? <==> forall p :: p in keys ==> Expected(p, m, config)
  {
    if |keys| > 0 {
      NoneUnexpected(keys[1..], m, config);
      assert keys == [keys[0]] + keys[1..] && keys[0] in keys;
    }
  }

  predicate Expected(p: ParticipantIndex, m: DealerMessage, config: DkgConfig) {
    p != m.dealer && p in config.registry
  }

  lemma {:induction false} NoneMissing(receivers: seq<ParticipantIndex>, m: DealerMessage)
    ensures FirstMissing(receivers, m).None? <==> forall p :: p in receivers ==> p in m.encryptedShares
  {
    if |receivers| > 0 {
      NoneMissing(receivers[1..], m);
      assert receivers == [receivers[0]] + receivers[1..] && receivers[0] in receivers;
    }
  }

  lemma KeysCover(m: DealerMessage, config: DkgConfig)
    requires m.dealer in config.registry
    ensures SharesCover(config, m) <==>
      && FirstUnexpected(InOrder(m.encryptedShares.Keys), m, config).None?
      && FirstMissing(Others(config.Indexes(), m.dealer), m).None?
  {
    NoneUnexpected(InOrder(m.encryptedShares.Keys), m, config);
    NoneMissing(Others(config.Indexes(), m.dealer), m);
    OthersAre(config.Indexes(), m.dealer);
    InOrderFacts(m.encryptedShares.Keys);
    InOrderFacts(config.registry.Keys);
    var have, want := m.encryptedShares.Keys, config.registry.Keys - {m.dealer};
    assert have <= want <==> FirstUnexpected(InOrder(have), m, config).None?;
    assert want <= have <==> FirstMissing(Others(config.Indexes(), m.dealer), m).None?;
  }

  function EnsurePublicShareKeys(m: DealerMessage, config: DkgConfig): (r: Option<Error>)
    requires m.dealer in config.registry
    ensures r.None? <==> SharesCover(config, m)
  {
    var unexpected := FirstUnexpected(InOrder(m.encryptedShares.Keys), m, config);
    var missing := FirstMissing(Others(config.Indexes(), m.dealer), m);
    KeysCover(m, config);
    if unexpected.Some? then Some(UnexpectedShare(unexpected.value))
    else if missing.Some? then Some(MissingShare(missing.value))
    else None
  }

  // A message the public checks accept, before its proof.
  predicate WellFormed(b: Backend, config: DkgConfig, m: DealerMessage) {
    && m.sessionId == config.sessionId && m.registryRoot == b.registryRoot(config.registry) && m.dealer in config.registry
    && |m.commitment| == config.threshold && RootOf(b, m) == m.transcriptRoot && SharesCover(config, m)
  }

  function DealingStatements(b: Backend, m: DealerMessage, config: DkgConfig): (r: Result<seq<EvrfStatement>, Error>)
    ensures r.Ok? <==> WellFormed(b, config, m)
    ensures r.Ok? ==> r.value == PublicStatements(b, config, m)
  {
    if m.sessionId != config.sessionId then Err(SessionMismatch)
    else if m.registryRoot != b.registryRoot(config.registry) then Err(RegistryMismatch)
    else if m.dealer !in config.registry then Err(UnknownParticipant(m.dealer))
    else if |m.commitment| != config.threshold then Err(InvalidCommitmentDegree(config.threshold, |m.commitment|))
    else if RootOf(b, m) != m.transcriptRoot then Err(ProofVerificationFailed)
    else
      var bad := EnsurePublicShareKeys(m, config);
      if bad.Some? then Err(bad.value) else Ok(PublicStatements(b, config, m))
  }

  // ----- dealing -----

  function DealerPad(b: Backend, config: DkgConfig, secret: Scalar, nonce: Bytes, receiver: ParticipantIndex): Result<Scalar, Error>
    requires receiver in config.registry
  {
    b.pad(nonce, config.beta, secret, config.registry[receiver], config.registry[receiver])
  }

  function Sealed(share: Scalar, pad: Scalar): EncryptedShare {
    EncryptedShare(MulGenerator(pad), Add(share, pad))
  }

  predicate HonestShare(b: Backend, config: DkgConfig, secret: Scalar, f: seq<Scalar>, nonce: Bytes, receiver: ParticipantIndex, share: EncryptedShare)
    requires receiver in config.registry
  {
    var pad := DealerPad(b, config, secret, nonce, receiver);
    pad.Ok? && share == Sealed(Evaluate(f, receiver).value, pad.value)
  }

  predicate HonestShares(b: Backend, config: DkgConfig, secret: Scalar, f: seq<Scalar>, nonce: Bytes, shares: EncryptedShares) {
    forall p :: p in shares ==> p in config.registry && HonestShare(b, config, secret, f, nonce, p, shares[p])
  }

  // A dealer alone has nothing to prove.
  predicate ProofHolds(b: Backend, config: DkgConfig, m: DealerMessage)
    requires m.dealer in config.registry && SharesCover(config, m)
  {
    var statements := PublicStatements(b, config, m);
    if statements == [] then m.proof == [] else b.verify(statements, m.proof)
  }

  // What an honest dealer publishes and keeps.
  predicate HonestDealing(b: Backend, config: DkgConfig, secret: Scalar, f: seq<Scalar>, d: DkgDealing) {
    var m := d.message;
    && WellFormed(b, config, m) && MulGenerator(secret) == config.registry[m.dealer] && |f| == config.threshold > 0
    && d.privateShare == Evaluate(f, m.dealer) && m.commitment == Commit(f)
    && HonestShares(b, config, secret, f, m.nonce, m.encryptedShares) && ProofHolds(b, config, m)
  }

  // The dealer's share commitment is the one a verifier recovers.
  lemma StatementsAgree(share: Scalar, pad: Scalar)
    ensures ElementSub(MulGenerator(Sealed(share, pad).encryptedShare), Sealed(share, pad).padCommitment) == MulGenerator(share)
  {
    GeneratorLog(share);
    GeneratorLog(pad);
    GeneratorLog(Add(share, pad));
    RedSub(Add(share, pad), share + pad, pad, pad);
  }

  lemma TakesOneMore(ps: seq<ParticipantIndex>, i: nat)
    requires i < |ps|
    ensures forall p :: p in ps[..i + 1] <==> p in ps[..i] || p == ps[i]
  {
    assert ps[..i + 1] == ps[..i] + [ps[i]];
  }

  // The receivers among the first n participants.
  function Receiving(ps: seq<ParticipantIndex>, n: nat, dealer: ParticipantIndex): set<ParticipantIndex>
    requires n <= |ps|
  {
    if n == 0 then {} else Receiving(ps, n - 1, dealer) + if ps[n - 1] != dealer then {ps[n - 1]} else {}
  }

  lemma {:induction false} ReceivingIs(ps: seq<ParticipantIndex>, n: nat, dealer: ParticipantIndex)
    requires n <= |ps|
    ensures forall p :: p in Receiving(ps, n, dealer) <==> p in ps[..n] && p != dealer
  {
    if n > 0 {
      ReceivingIs(ps, n - 1, dealer);
      TakesOneMore(ps, n - 1);
    }
  }

  lemma ReceivingAll(config: DkgConfig, dealer: ParticipantIndex)
    ensures Receiving(config.Indexes(), |config.Indexes()|, dealer) == config.registry.Keys - {dealer}
  {
    var ps := config.Indexes();
    ReceivingIs(ps, |ps|, dealer);
    assert ps[..|ps|] == ps;
    InOrderFacts(config.registry.Keys);
  }

  predicate DealerPads(b: Backend, config: DkgConfig, secret: Scalar, nonce: Bytes, pads: map<ParticipantIndex, Scalar>) {
    forall p :: p in pads ==> p in config.registry && DealerPad(b, config, secret, nonce, p) == Ok(pads[p])
  }

  // Every receiver's share under its pad.
  method EncryptShares(b: Backend, config: DkgConfig, dealer: ParticipantIndex, secret: Scalar, f: seq<Scalar>, nonce: Bytes)
    returns (r: Result<(EncryptedShares, map<ParticipantIndex, Scalar>), Error>)
    requires dealer in config.registry
    ensures r.Ok? <==> PadsOk(b, config, dealer, secret, nonce)
    ensures r.Ok? ==>
      && r.value.0.Keys == r.value.1.Keys == config.registry.Keys - {dealer}
      && HonestShares(b, config, secret, f, nonce, r.value.0) && DealerPads(b, config, secret, nonce, r.value.1)
  {
    var ps := config.Indexes();
    InOrderFacts(config.registry.Keys);
    var encrypted: EncryptedShares, pads: map<ParticipantIndex, Scalar> := map[], map[];
    for i := 0 to |ps|
      invariant encrypted.Keys == pads.Keys == Receiving(ps, i, dealer)
      invariant HonestShares(b, config, secret, f, nonce, encrypted) && DealerPads(b, config, secret, nonce, pads)
    {
      var receiver := ps[i];
      assert receiver in ps;
      if receiver != dealer {
        var pad := DealerPad(b, config, secret, nonce, receiver);
        if pad.Err? {
          return Err(pad.error);
        }
        AddsReceiver(b, config, secret, f, nonce, receiver, encrypted, pads);
        encrypted := encrypted[receiver := Sealed(Evaluate(f, receiver).value, pad.value)];
        pads := pads[receiver := pad.value];
      }
    }
    ReceivingAll(config, dealer);
    PadsOfAll(b, config, dealer, secret, nonce, pads);
    r := Ok((encrypted, pads));
  }

  lemma AddsReceiver(b: Backend, config: DkgConfig, secret: Scalar, f: seq<Scalar>, nonce: Bytes, receiver: ParticipantIndex, encrypted: EncryptedShares, pads: map<ParticipantIndex, Scalar>)
    requires receiver in config.registry && DealerPad(b, config, secret, nonce, receiver).Ok?
    requires HonestShares(b, config, secret, f, nonce, encrypted) && DealerPads(b, config, secret, nonce, pads)
    ensures
      var pad := DealerPad(b, config, secret, nonce, receiver).value;
      && HonestShares(b, config, secret, f, nonce, encrypted[receiver := Sealed(Evaluate(f, receiver).value, pad)])
      && DealerPads(b, config, secret, nonce, pads[receiver := pad])
  {
  }

  // Every receiver has a pad.
  predicate PadsOk(b: Backend, config: DkgConfig, dealer: ParticipantIndex, secret: Scalar, nonce: Bytes) {
    forall p :: p in config.registry && p != dealer ==> DealerPad(b, config, secret, nonce, p).Ok?
  }

  lemma PadsOfAll(b: Backend, config: DkgConfig, dealer: ParticipantIndex, secret: Scalar, nonce: Bytes, pads: map<ParticipantIndex, Scalar>)
    requires DealerPads(b, config, secret, nonce, pads) && pads.Keys == config.registry.Keys - {dealer}
    ensures PadsOk(b, config, dealer, secret, nonce)
  {
    forall p | p in config.registry && p != dealer
      ensures DealerPad(b, config, secret, nonce, p).Ok?
    {
      assert p in pads;
    }
  }

  predicate Covers(config: DkgConfig, m: DealerMessage, p: ParticipantIndex) {
    p in config.registry && p in m.encryptedShares
  }

  lemma ReceiverWitnessed(b: Backend, config: DkgConfig, m: DealerMessage, secret: Scalar, f: seq<Scalar>, pad: Scalar, receiver: ParticipantIndex)
    requires m.dealer in config.registry && receiver in config.registry && receiver in m.encryptedShares
    requires m.commitment == Commit(f) && MulGenerator(secret) == config.registry[m.dealer]
    requires HonestShare(b, config, secret, f, m.nonce, receiver, m.encryptedShares[receiver])
    requires DealerPad(b, config, secret, m.nonce, receiver) == Ok(pad)
    ensures
      var value := Evaluate(f, receiver).value;
      var st := StatementFor(b, config, m.dealer, receiver, m.nonce, MulGenerator(value), m.commitment, m.encryptedShares[receiver], m.transcriptRoot);
      st == PublicStatement(b, config, m, receiver) && b.Witnessed(st, EvrfWitness(secret, f, value, pad))
  {
    StatementsAgree(Evaluate(f, receiver).value, pad);
  }

  // The statements and witnesses of a dealing, receiver by receiver.
  method ProveInputs(b: Backend, config: DkgConfig, m: DealerMessage, secret: Scalar, f: seq<Scalar>, pads: map<ParticipantIndex, Scalar>)
    returns (statements: seq<EvrfStatement>, witnesses: seq<EvrfWitness>)
    requires WellFormed(b, config, m) && m.commitment == Commit(f) && MulGenerator(secret) == config.registry[m.dealer]
    requires HonestShares(b, config, secret, f, m.nonce, m.encryptedShares) && pads.Keys == m.encryptedShares.Keys
    requires DealerPads(b, config, secret, m.nonce, pads)
    ensures statements == PublicStatements(b, config, m) && b.AllWitnessed(statements, witnesses)
  {
    var rs := Others(config.Indexes(), m.dealer);
    ghost var all := PublicStatements(b, config, m);
    PublicStatementsAre(b, config, m);
    statements, witnesses := [], [];
    for i := 0 to |rs|
      invariant |statements| == |witnesses| == i
      invariant forall k :: 0 <= k < i ==> statements[k] == all[k] && b.Witnessed(statements[k], witnesses[k])
    {
      var receiver := rs[i];
      assert Covers(config, m, receiver);
      var value := Evaluate(f, receiver).value;
      ReceiverWitnessed(b, config, m, secret, f, pads[receiver], receiver);
      var statement := StatementFor(b, config, m.dealer, receiver, m.nonce, MulGenerator(value), m.commitment, m.encryptedShares[receiver], m.transcriptRoot);
      statements := statements + [statement];
      witnesses := witnesses + [EvrfWitness(secret, f, value, pads[receiver])];
    }
  }

  // The statements do not depend on the proof.
  lemma ProofFree(b: Backend, config: DkgConfig, m: DealerMessage, proof: Bytes)
    requires WellFormed(b, config, m)
    ensures WellFormed(b, config, m.(proof := proof))
    ensures PublicStatements(b, config, m.(proof := proof)) == PublicStatements(b, config, m)
  {
    var m' := m.(proof := proof);
    PublicStatementsAre(b, config, m);
    PublicStatementsAre(b, config, m');
    forall p | p in config.registry && p in m.encryptedShares
      ensures PublicStatement(b, config, m', p) == PublicStatement(b, config, m, p)
    {
    }
  }

  // The dealing of a polynomial given by its secret and its other coefficients.
  method CreateDealingWithSecret(b: Backend, config: DkgConfig, dealer: ParticipantIndex, secret: Scalar, polynomialSecret: Scalar, others: seq<Scalar>, nonce: Bytes, coins: Bytes)
    returns (r: Result<DkgDealing, Error>)
    requires b.Complete() && (config.threshold == 0 || |others| + 1 == config.threshold)
    ensures r.Ok? <==>
      && dealer in config.registry && MulGenerator(secret) == config.registry[dealer] && config.threshold > 0
      && PadsOk(b, config, dealer, secret, nonce)
    ensures r.Ok? ==> r.value.message.dealer == dealer && HonestDealing(b, config, secret, [polynomialSecret] + others, r.value)
  {
    if dealer !in config.registry {
      return Err(UnknownParticipant(dealer));
    }
    if MulGenerator(secret) != config.registry[dealer] {
      return Err(IdentityKeyMismatch);
    }
    if config.threshold == 0 {
      return Err(InvalidThreshold(0, 0));
    }
    var f := [polynomialSecret] + others;
    var commitment := Commit(f);
    var sealed := EncryptShares(b, config, dealer, secret, f, nonce);
    if sealed.Err? {
      return Err(sealed.error);
    }
    var (encrypted, pads) := sealed.value;
    var registryRoot := b.registryRoot(config.registry);
    var m := DealerMessage(config.sessionId, registryRoot, dealer, nonce, commitment, encrypted, [],
      b.dealingRoot(config.sessionId, registryRoot, dealer, nonce, commitment, encrypted));
    var statements, witnesses := ProveInputs(b, config, m, secret, f, pads);
    if statements != [] {
      var proof := b.prove(statements, witnesses, coins);
      if proof.Err? {
        // A complete backend proves true statements.
        assert false;
      }
      ProofFree(b, config, m, proof.value);
      m := m.(proof := proof.value);
    }
    var privateShare := Evaluate(f, dealer);
    OnlyTheTrueShareMatches(f, privateShare);
    var matches := VerifyShare(commitment, privateShare);
    if !matches {
      return Err(CommitmentVerificationFailed);
    }
    r := Ok(DkgDealing(m, privateShare));
  }

  // ----- verification -----

  predicate AllWellFormed(b: Backend, config: DkgConfig, ms: seq<DealerMessage>) {
    forall i :: 0 <= i < |ms| ==> WellFormed(b, config, ms[i])
  }

  // The statements and proof of every message, for the backend.
  function Batches(b: Backend, config: DkgConfig, ms: seq<DealerMessage>): (r: seq<(seq<EvrfStatement>, Bytes)>)
    requires AllWellFormed(b, config, ms)
    ensures |r| == |ms|
  {
    seq(|ms|, i requires 0 <= i < |ms| => (PublicStatements(b, config, ms[i]), ms[i].proof))
  }

  predicate NothingToProve(batches: seq<(seq<EvrfStatement>, Bytes)>) {
    forall i :: 0 <= i < |batches| ==> batches[i].0 == []
  }

  // The first batch whose own proof fails.
  function FirstFailing(b: Backend, batches: seq<(seq<EvrfStatement>, Bytes)>, from: nat): (r: Option<nat>)
    requires from <= |batches|
    ensures r.Some? ==> from <= r.value < |batches| && !b.verify(batches[r.value].0, batches[r.value].1)
    ensures forall i :: from <= i < (if r.Some? then r.value else |batches|) ==> b.verify(batches[i].0, batches[i].1)
    decreases |batches| - from
  {
    if from == |batches| then None
    else if !b.verify(batches[from].0, batches[from].1) then Some(from)
    else FirstFailing(b, batches, from + 1)
  }

  predicate Verified(b: Backend, config: DkgConfig, ms: seq<DealerMessage>) {
    && ms != [] && AllWellFormed(b, config, ms)
    && if NothingToProve(Batches(b, config, ms)) then forall i :: 0 <= i < |ms| ==> ms[i].proof == []
       else b.verifyAll(Batches(b, config, ms)).Ok?
  }

  // Every message's public checks, before any proof.
  method CollectBatches(b: Backend, config: DkgConfig, ms: seq<DealerMessage>) returns (r: Result<seq<(seq<EvrfStatement>, Bytes)>, Error>)
    ensures r.Ok? <==> AllWellFormed(b, config, ms)
    ensures r.Ok? ==> r.value == Batches(b, config, ms)
  {
    var batches: seq<(seq<EvrfStatement>, Bytes)> := [];
    for i := 0 to |ms|
      invariant AllWellFormed(b, config, ms[..i]) && batches == Batches(b, config, ms[..i])
    {
      var statements := DealingStatements(b, ms[i], config);
      if statements.Err? {
        return Err(statements.error);
      }
      batches := batches + [(statements.value, ms[i].proof)];
    }
    assert ms[..|ms|] == ms;
    r := Ok(batches);
  }

  // The first dealer whose own proof fails, if there is one; among messages with nothing to
  // prove, the first that carries a proof.
  ghost predicate Blamed(b: Backend, config: DkgConfig, ms: seq<DealerMessage>, error: Error)
    requires AllWellFormed(b, config, ms)
  {
    var batches := Batches(b, config, ms);
    if NothingToProve(batches) then
      exists i :: 0 <= i < |ms| && ms[i].proof != [] && (forall k :: 0 <= k < i ==> ms[k].proof == []) && error == DealerProofVerificationFailed(ms[i].dealer)
    else
      var culprit := FirstFailing(b, batches, 0);
      if culprit.Some? then error == DealerProofVerificationFailed(ms[culprit.value].dealer)
      else b.AllVerify(batches) && b.verifyAll(batches) == Err(error)
  }

  // All messages in one backend call; a failure names the first dealer whose own proof
  // fails, if there is one.
  method VerifyDealings(b: Backend, config: DkgConfig, ms: seq<DealerMessage>) returns (r: Result<(), Error>)
    ensures r.Ok? <==> Verified(b, config, ms)
    ensures r.Err? && ms != [] && AllWellFormed(b, config, ms) ==> Blamed(b, config, ms, r.error)
  {
    if ms == [] {
      return Err(ProofVerificationFailed);
    }
    var collected := CollectBatches(b, config, ms);
    if collected.Err? {
      return Err(collected.error);
    }
    var batches := collected.value;
    if NothingToProve(batches) {
      for i := 0 to |ms|
        invariant forall k :: 0 <= k < i ==> ms[k].proof == []
      {
        if ms[i].proof != [] {
          return Err(DealerProofVerificationFailed(ms[i].dealer));
        }
      }
      return Ok(());
    }
    var all := b.verifyAll(batches);
    if all.Ok? {
      return Ok(());
    }
    for i := 0 to |ms|
      invariant FirstFailing(b, batches, 0) == FirstFailing(b, batches, i)
    {
      if !b.verify(batches[i].0, batches[i].1) {
        return Err(DealerProofVerificationFailed(ms[i].dealer));
      }
    }
    r := Err(all.error);
  }

  // ----- decryption -----

  function ReceiverPad(b: Backend, config: DkgConfig, m: DealerMessage, receiver: ParticipantIndex, secret: Scalar): Result<Scalar, Error> {
    if m.dealer !in config.registry then Err(UnknownParticipant(m.dealer))
    else if receiver !in config.registry then Err(UnknownParticipant(receiver))
    else b.pad(m.nonce, config.beta, secret, config.registry[m.dealer], config.registry[receiver])
  }

  // The receiver's share, if it opens and matches the commitment.
  function Decrypted(b: Backend, config: DkgConfig, m: DealerMessage, receiver: ParticipantIndex, secret: Scalar): Result<Share, Error> {
    if receiver !in m.encryptedShares then Err(MissingShare(receiver))
    else
      var pad :- ReceiverPad(b, config, m, receiver, secret);
      var share := Share(receiver, Sub(m.encryptedShares[receiver].encryptedShare, pad));
      if ShareMatches(m.commitment, share) then Ok(share) else Err(CommitmentVerificationFailed)
  }

  method DecryptShareForReceiver(b: Backend, config: DkgConfig, m: DealerMessage, receiver: ParticipantIndex, secret: Scalar)
    returns (r: Result<Share, Error>)
    ensures r == Decrypted(b, config, m, receiver, secret)
  {
    if receiver !in m.encryptedShares {
      return Err(MissingShare(receiver));
    }
    var pad := ReceiverPad(b, config, m, receiver, secret);
    if pad.Err? {
      return Err(pad.error);
    }
    var share := Share(receiver, Sub(m.encryptedShares[receiver].encryptedShare, pad.value));
    var matches := VerifyShare(m.commitment, share);
    r := if matches then Ok(share) else Err(CommitmentVerificationFailed);
  }

  // ----- completion -----

  type Dealings = map<ParticipantIndex, DealerMessage>

  predicate KeyedByDealer(all: Dealings) {
    forall d :: d in all ==> all[d].dealer == d
  }

  // The own message and those of the first i peers, under their dealers.
  ghost predicate GatheredTo(all: Dealings, own: DealerMessage, peers: Dealings, ds: seq<ParticipantIndex>, i: nat)
    requires i <= |ds|
  {
    && (forall d :: d in all <==> d == own.dealer || d in ds[..i])
    && (forall d :: d in ds[..i] ==> d in peers && d != own.dealer && peers[d].dealer == d && all[d] == peers[d])
    && all[own.dealer] == own
  }

  lemma GatherStep(all: Dealings, own: DealerMessage, peers: Dealings, ds: seq<ParticipantIndex>, i: nat)
    requires i < |ds| && Increasing(ds) && GatheredTo(all, own, peers, ds, i) && ds[i] in peers
    ensures ds[i] in all <==> ds[i] == own.dealer
    ensures ds[i] !in all && peers[ds[i]].dealer == ds[i] ==> GatheredTo(all[ds[i] := peers[ds[i]]], own, peers, ds, i + 1)
  {
    TakesOneMore(ds, i);
    IncreasingIsFresh(ds, i);
  }

  // Own and peer messages under their dealers.
  method GatherDealings(own: DealerMessage, peers: Dealings) returns (r: Result<Dealings, Error>)
    ensures r.Ok? <==> KeyedByDealer(peers) && own.dealer !in peers
    ensures r.Ok? ==> r.value == peers[own.dealer := own] && KeyedByDealer(r.value)
  {
    var all: Dealings := map[own.dealer := own];
    var ds := InOrder(peers.Keys);
    InOrderFacts(peers.Keys);
    InOrderIncreasing(peers.Keys);
    for i := 0 to |ds|
      invariant GatheredTo(all, own, peers, ds, i)
    {
      var d := ds[i];
      assert d in ds;
      GatherStep(all, own, peers, ds, i);
      if d != peers[d].dealer {
        return Err(DealerKeyMismatch(d, peers[d].dealer));
      }
      if d in all {
        return Err(DuplicateParticipantIndex(d));
      }
      all := all[d := peers[d]];
    }
    assert ds[..|ds|] == ds;
    GatheredIs(all, own, peers, ds);
    r := Ok(all);
  }

  lemma GatheredIs(all: Dealings, own: DealerMessage, peers: Dealings, ds: seq<ParticipantIndex>)
    requires forall d :: d in ds <==> d in peers
    requires forall d :: d in all <==> d == own.dealer || d in ds
    requires forall d :: d in ds ==> d in peers && d != own.dealer && peers[d].dealer == d && all[d] == peers[d]
    requires own.dealer in all && all[own.dealer] == own
    ensures all == peers[own.dealer := own] && KeyedByDealer(peers) && KeyedByDealer(all) && own.dealer !in peers
  {
  }

  lemma IncreasingIsFresh(ds: seq<ParticipantIndex>, i: nat)
    requires Increasing(ds) && i < |ds|
    ensures ds[i] !in ds[..i]
  {
  }

  // The registered dealers' messages in the order of the registry.
  function InRegistryOrder(all: Dealings, ps: seq<ParticipantIndex>): Result<seq<DealerMessage>, Error> {
    if |ps| == 0 then Ok([])
    else if ps[0] !in all then Err(MissingDealing(ps[0]))
    else
      var rest :- InRegistryOrder(all, ps[1..]);
      Ok([all[ps[0]]] + rest)
  }

  lemma {:induction false} RegistryOrderIs(all: Dealings, ps: seq<ParticipantIndex>)
    ensures InRegistryOrder(all, ps).Ok? <==> forall p :: p in ps ==> p in all
    ensures InRegistryOrder(all, ps).Ok? ==>
      |InRegistryOrder(all, ps).value| == |ps| && forall i :: 0 <= i < |ps| ==> ps[i] in all && InRegistryOrder(all, ps).value[i] == all[ps[i]]
  {
    if |ps| > 0 {
      RegistryOrderIs(all, ps[1..]);
      assert ps == [ps[0]] + ps[1..] && ps[0] in ps;
      assert forall i :: 0 < i < |ps| ==> ps[i] == ps[1..][i - 1];
    }
  }

  // Coefficientwise, as far as both reach.
  function AddCommitment(aggregate: seq<Element>, commitment: seq<Element>): (r: seq<Element>)
    ensures |r| == |aggregate|
  {
    seq(|aggregate|, i requires 0 <= i < |aggregate| => if i < |commitment| then ElementAdd(aggregate[i], commitment[i]) else aggregate[i])
  }

  // The sum of the first n dealers' commitments.
  function AggregateTo(all: Dealings, ds: seq<ParticipantIndex>, n: nat, threshold: nat): (r: seq<Element>)
    requires n <= |ds| && forall i :: 0 <= i < |ds| ==> ds[i] in all
    ensures |r| == threshold
  {
    if n == 0 then seq(threshold, i => Identity)
    else AddCommitment(AggregateTo(all, ds, n - 1, threshold), all[ds[n - 1]].commitment)
  }

  // Dealers in the order of the map.
  function Dealers(all: Dealings): (ds: seq<ParticipantIndex>)
    ensures forall i :: 0 <= i < |ds| ==> ds[i] in all
    ensures forall d :: d in all <==> d in ds
  {
    InOrderFacts(all.Keys);
    var ds := InOrder(all.Keys);
    assert forall i :: 0 <= i < |ds| ==> ds[i] in ds;
    ds
  }

  function Aggregate(all: Dealings, threshold: nat): (r: seq<Element>)
    ensures |r| == threshold
  {
    AggregateTo(all, Dealers(all), |Dealers(all)|, threshold)
  }

  lemma {:induction false} AddedEval(a: seq<Element>, c: seq<Element>, x: int)
    requires |a| == |c|
    ensures Red(Eval(AddCommitment(a, c), x)) == Red(Eval(a, x) + Eval(c, x))
  {
    Evals();
    if |a| > 0 {
      AddedEval(a[1..], c[1..], x);
      assert AddCommitment(a, c)[1..] == AddCommitment(a[1..], c[1..]);
      AddedStep(a[0], c[0], x, Eval(AddCommitment(a[1..], c[1..]), x), Eval(a[1..], x), Eval(c[1..], x));
    }
  }

  lemma AddedStep(a: Element, c: Element, x: int, sum: int, e: int, d: int)
    requires Red(sum) == Red(e + d)
    ensures Red(ElementAdd(a, c) + Times(x, sum)) == Red(a + Times(x, e) + (c + Times(x, d)))
  {
    RedMul(x, x, sum, e + d);
    RedAdd(ElementAdd(a, c), a + c, Times(x, sum), Times(x, e + d));
    TimesDistributes(x, e, d);
  }

  lemma {:induction false} ZeroEval(t: nat, x: int)
    ensures Eval(seq(t, i => Identity), x) == 0
  {
    Evals();
    if t > 0 {
      ZeroEval(t - 1, x);
      assert (seq(t, i => Identity))[1..] == seq(t - 1, i => Identity);
      TimesUnits(x);
    }
  }

  // Whether the receiver's share of this dealing is accepted.
  predicate ShareAccepted(b: Backend, config: DkgConfig, m: DealerMessage, ownShare: Share, secret: Scalar) {
    if m.dealer == ownShare.participant then ShareMatches(m.commitment, ownShare)
    else Decrypted(b, config, m, ownShare.participant, secret).Ok?
  }

  // Every registered dealer's commitment has one coefficient per threshold.
  predicate Sized(config: DkgConfig, all: Dealings) {
    KeyedByDealer(all) && forall d :: d in config.registry ==> d in all && |all[d].commitment| == config.threshold
  }

  // One dealing's share, checked against its commitment.
  method AcceptShare(b: Backend, config: DkgConfig, m: DealerMessage, ownShare: Share, secret: Scalar) returns (r: Result<Share, Error>)
    ensures r.Ok? <==> ShareAccepted(b, config, m, ownShare, secret)
    ensures r.Ok? ==> r.value.participant == ownShare.participant && ShareMatches(m.commitment, r.value)
    ensures r.Ok? && ownShare.participant in config.registry ==> m.dealer in config.registry || m.dealer == ownShare.participant
  {
    var share := ownShare;
    if m.dealer != ownShare.participant {
      var decrypted := DecryptShareForReceiver(b, config, m, ownShare.participant, secret);
      if decrypted.Err? {
        return Err(decrypted.error);
      }
      share := decrypted.value;
    }
    var matches := VerifyShare(m.commitment, share);
    if !matches {
      return Err(CommitmentVerificationFailed);
    }
    r := Ok(share);
  }

  // Adds a commitment to the aggregate in place.
  method Accumulate(aggregate: array<Element>, commitment: seq<Element>)
    modifies aggregate
    ensures aggregate[..] == AddCommitment(old(aggregate[..]), commitment)
  {
    for i := 0 to aggregate.Length
      invariant forall k :: 0 <= k < aggregate.Length ==>
        aggregate[k] == if k < i && k < |commitment| then ElementAdd(old(aggregate[k]), commitment[k]) else old(aggregate[k])
    {
      if i < |commitment| {
        aggregate[i] := ElementAdd(aggregate[i], commitment[i]);
      }
    }
  }

  lemma ShareSum(aggregate: seq<Element>, commitment: seq<Element>, p: ParticipantIndex, sum: Scalar, share: Share)
    requires |aggregate| == |commitment| && sum == CommittedAt(aggregate, p)
    requires share.participant == p && ShareMatches(commitment, share)
    ensures Add(sum, share.value) == CommittedAt(AddCommitment(aggregate, commitment), p)
  {
    var x := ToScalar(p);
    GeneratorLog(share.value);
    AddedEval(aggregate, commitment, x);
    RedAdd(sum, Eval(aggregate, x), share.value, Eval(commitment, x));
  }

  // Adds one dealing's share to the sum and its commitment to the aggregate.
  method AddDealing(b: Backend, config: DkgConfig, m: DealerMessage, ownShare: Share, secret: Scalar, aggregate: array<Element>, sum: Scalar)
    returns (r: Result<Scalar, Error>)
    requires ownShare.participant in config.registry && sum == CommittedAt(aggregate[..], ownShare.participant)
    requires m.dealer in config.registry ==> |m.commitment| == aggregate.Length
    modifies aggregate
    ensures r.Ok? <==> ShareAccepted(b, config, m, ownShare, secret)
    ensures r.Ok? ==>
      && m.dealer in config.registry && aggregate[..] == AddCommitment(old(aggregate[..]), m.commitment)
      && r.value == CommittedAt(aggregate[..], ownShare.participant)
  {
    var share := AcceptShare(b, config, m, ownShare, secret);
    if share.Err? {
      return Err(share.error);
    }
    ShareSum(aggregate[..], m.commitment, ownShare.participant, sum, share.value);
    Accumulate(aggregate, m.commitment);
    r := Ok(Add(sum, share.value.value));
  }

  // The sums of the shares and of the commitments, dealer by dealer. Since every share
  // matches its commitment, the sum of the shares is the aggregate's value.
  method AggregateDealings(b: Backend, config: DkgConfig, all: Dealings, ownShare: Share, secret: Scalar) returns (r: Result<(Scalar, seq<Element>), Error>)
    requires Sized(config, all) && ownShare.participant in config.registry
    ensures r.Ok? <==> forall d :: d in all ==> ShareAccepted(b, config, all[d], ownShare, secret)
    ensures r.Ok? ==>
      && all.Keys == config.registry.Keys
      && r.value.1 == Aggregate(all, config.threshold)
      && r.value.0 == CommittedAt(r.value.1, ownShare.participant)
  {
    var ds := Dealers(all);
    var sum: Scalar := 0;
    var aggregate := new Element[config.threshold](i => Identity);
    assert aggregate[..] == AggregateTo(all, ds, 0, config.threshold);
    ZeroEval(config.threshold, ToScalar(ownShare.participant));
    for i := 0 to |ds|
      invariant aggregate.Length == config.threshold && aggregate[..] == AggregateTo(all, ds, i, config.threshold)
      invariant sum == CommittedAt(aggregate[..], ownShare.participant)
      invariant forall k :: 0 <= k < i ==> ShareAccepted(b, config, all[ds[k]], ownShare, secret) && ds[k] in config.registry
    {
      var added := AddDealing(b, config, all[ds[i]], ownShare, secret, aggregate, sum);
      if added.Err? {
        return Err(added.error);
      }
      sum := added.value;
    }
    forall d | d in all
      ensures ShareAccepted(b, config, all[d], ownShare, secret) && d in config.registry
    {
      var k :| 0 <= k < |ds| && ds[k] == d;
    }
    r := Ok((sum, aggregate[..]));
  }

  // The public key shares of every registered participant.
  method PublicKeyShares(config: DkgConfig, aggregate: seq<Element>) returns (shares: map<ParticipantIndex, Element>)
    ensures shares.Keys == config.registry.Keys && forall p :: p in shares ==> shares[p] == CommittedAt(aggregate, p)
  {
    shares := map[];
    var ps := config.Indexes();
    InOrderFacts(config.registry.Keys);
    for i := 0 to |ps|
      invariant forall p :: p in shares <==> p in ps[..i]
      invariant forall p :: p in shares ==> shares[p] == CommittedAt(aggregate, p)
    {
      TakesOneMore(ps, i);
      var share := PublicKeyShare(aggregate, ps[i]);
      shares := shares[ps[i] := share];
    }
    assert ps[..|ps|] == ps;
  }

  function Roots(all: Dealings): seq<(ParticipantIndex, Bytes)> {
    var ds := Dealers(all);
    seq(|ds|, i requires 0 <= i < |ds| => (ds[i], all[ds[i]].transcriptRoot))
  }

  // What an accepted run gives a participant: everything but the secret share depends
  // on the messages alone, and the secret share opens the participant's public share.
  predicate Completed(b: Backend, config: DkgConfig, all: Dealings, receiver: ParticipantIndex, out: DkgOutput) {
    var aggregate := Aggregate(all, config.threshold);
    && config.threshold > 0 && receiver in config.registry
    && out.publicKey == aggregate[0]
    && out.publicKeyShares.Keys == config.registry.Keys
    && (forall p :: p in out.publicKeyShares ==> out.publicKeyShares[p] == CommittedAt(aggregate, p))
    && out.transcriptRoot == b.completionRoot(Roots(all))
    && out.secretShare.participant == receiver
    && MulGenerator(out.secretShare.value) == out.publicKeyShares[receiver]
  }

  // What completing demands of its inputs.
  predicate Accepts(b: Backend, config: DkgConfig, receiver: ParticipantIndex, secret: Scalar, own: DkgDealing, peers: Dealings) {
    && receiver in config.registry && MulGenerator(secret) == config.registry[receiver]
    && own.message.dealer == receiver && own.privateShare.participant == receiver
    && KeyedByDealer(peers) && receiver !in peers
    && AcceptsAll(b, config, secret, own.privateShare, peers[receiver := own.message])
  }

  // What completing demands of the gathered dealings.
  predicate AcceptsAll(b: Backend, config: DkgConfig, secret: Scalar, ownShare: Share, all: Dealings) {
    && config.threshold > 0 && (forall d :: d in config.registry ==> d in all)
    && Verified(b, config, RegistryMessages(config, all))
    && forall d :: d in all ==> ShareAccepted(b, config, all[d], ownShare, secret)
  }

  function RegistryMessages(config: DkgConfig, all: Dealings): (r: seq<DealerMessage>)
    requires forall d :: d in config.registry ==> d in all
  {
    RegistryOrderIs(all, config.Indexes());
    InOrderFacts(config.registry.Keys);
    InRegistryOrder(all, config.Indexes()).value
  }

  method Complete(b: Backend, config: DkgConfig, receiver: ParticipantIndex, secret: Scalar, own: DkgDealing, peers: Dealings)
    returns (r: Result<DkgOutput, Error>)
    ensures r.Ok? <==> Accepts(b, config, receiver, secret, own, peers)
    ensures r.Ok? ==> Completed(b, config, peers[receiver := own.message], receiver, r.value)
  {
    if receiver !in config.registry {
      return Err(UnknownParticipant(receiver));
    }
    if MulGenerator(secret) != config.registry[receiver] {
      return Err(IdentityKeyMismatch);
    }
    if own.message.dealer != receiver {
      return Err(DealerKeyMismatch(receiver, own.message.dealer));
    }
    if own.privateShare.participant != receiver {
      return Err(PrivateShareParticipantMismatch(receiver, own.privateShare.participant));
    }
    var gathered := GatherDealings(own.message, peers);
    if gathered.Err? {
      return Err(gathered.error);
    }
    r := CompleteFrom(b, config, receiver, secret, own.privateShare, gathered.value);
  }

  // Completion once the dealings are gathered.
  method CompleteFrom(b: Backend, config: DkgConfig, receiver: ParticipantIndex, secret: Scalar, ownShare: Share, all: Dealings)
    returns (r: Result<DkgOutput, Error>)
    requires receiver in config.registry && ownShare.participant == receiver && KeyedByDealer(all)
    ensures r.Ok? <==> AcceptsAll(b, config, secret, ownShare, all)
    ensures r.Ok? ==> Completed(b, config, all, receiver, r.value)
  {
    RegistryOrderIs(all, config.Indexes());
    InOrderFacts(config.registry.Keys);
    var messages := InRegistryOrder(all, config.Indexes());
    if messages.Err? {
      return Err(messages.error);
    }
    var verified := VerifyDealings(b, config, messages.value);
    if verified.Err? {
      return Err(verified.error);
    }
    VerifiedAreSized(b, config, all);
    var sums := AggregateDealings(b, config, all, ownShare, secret);
    if sums.Err? {
      return Err(sums.error);
    }
    var (share, aggregate) := sums.value;
    if aggregate == [] {
      return Err(EmptyCommitment);
    }
    var shares := PublicKeyShares(config, aggregate);
    GeneratorLog(share);
    r := Ok(DkgOutput(aggregate[0], Share(receiver, share), shares, b.completionRoot(Roots(all))));
  }

  lemma VerifiedAreSized(b: Backend, config: DkgConfig, all: Dealings)
    requires KeyedByDealer(all) && (forall d :: d in config.registry ==> d in all)
    requires Verified(b, config, RegistryMessages(config, all))
    ensures Sized(config, all)
  {
    var ps := config.Indexes();
    RegistryOrderIs(all, ps);
    InOrderFacts(config.registry.Keys);
    forall d | d in config.registry
      ensures |all[d].commitment| == config.threshold
    {
      var i :| 0 <= i < |ps| && ps[i] == d;
      assert WellFormed(b, config, RegistryMessages(config, all)[i]);
    }
  }
}
