// From two key generation runs to EHTDH1 key material: dkg_bridge.rs.
module DkgBridge {
  import opened Wrappers
  import Bits
  import opened Scalars
  import opened Vectors
  import opened Polynomials
  import opened Core
  import opened Shamir
  import opened Feldman
  import opened PublicKeys
  import Dkg
  import DkgRun
  import Ehtdh
  import OrderedMap
  import Combiner

  datatype BridgeError = InvalidBridge(reason: string) | Rejected(error: EhtdhError)

  datatype SetupContext = SetupContext(
    threshold: nat, registryRoot: Bits.Bytes, participants: seq<ParticipantIndex>,
    decryptionSession: Bits.Bytes, contextSession: Bits.Bytes, decryptionRoot: Bits.Bytes, contextRoot: Bits.Bytes, epoch: Bits.Bytes)

  datatype Material = Material(sealingKey: Element, keys: PublicKeySet, secretShare: Ehtdh.SecretShare, setup: SetupContext)

  // X_i from the first run, Z_i from the second.
  function PairedShares(decryption: Dkg.DkgOutput, context: Dkg.DkgOutput): PublicShares
    requires decryption.publicKeyShares.Keys == context.publicKeyShares.Keys
  {
    map p | p in decryption.publicKeyShares :: PublicShare(decryption.publicKeyShares[p], context.publicKeyShares[p])
  }

  // The two runs fit together: same committee, linked sessions, same local participant,
  // and the second one shares zero.
  predicate Matching(b: Dkg.Backend, contextSession: Bits.Bytes -> Bits.Bytes, dc: Dkg.DkgConfig, d: Dkg.DkgOutput, cc: Dkg.DkgConfig, c: Dkg.DkgOutput) {
    && dc.threshold == cc.threshold && b.registryRoot(dc.registry) == b.registryRoot(cc.registry)
    && cc.sessionId == contextSession(dc.sessionId) && d.secretShare.participant == c.secretShare.participant
    && d.publicKeyShares.Keys == c.publicKeyShares.Keys && c.publicKey == Identity && d.publicKey != Identity
    && dc.Indexes() == cc.Indexes() && forall p :: p in dc.registry ==> p in d.publicKeyShares
  }

  // Each session and root is of its own run, and the participants are the registry's in order.
  predicate NamesRuns(setup: SetupContext, b: Dkg.Backend, dc: Dkg.DkgConfig, d: Dkg.DkgOutput, cc: Dkg.DkgConfig, c: Dkg.DkgOutput) {
    && setup.threshold == dc.threshold && setup.registryRoot == b.registryRoot(dc.registry)
    && setup.decryptionSession == dc.sessionId && setup.decryptionRoot == d.transcriptRoot
    && setup.contextSession == cc.sessionId && setup.contextRoot == c.transcriptRoot
    && OrderedMap.Increasing(setup.participants)
    && |setup.participants| == |dc.registry| && forall p :: p in setup.participants ==> p in dc.registry
  }

  function SetupOf(b: Dkg.Backend, dc: Dkg.DkgConfig, d: Dkg.DkgOutput, cc: Dkg.DkgConfig, c: Dkg.DkgOutput, epoch: Bits.Bytes): (setup: SetupContext)
    ensures NamesRuns(setup, b, dc, d, cc, c)
  {
    InOrderFacts(dc.registry.Keys);
    InOrderIncreasing(dc.registry.Keys);
    SetupContext(dc.threshold, b.registryRoot(dc.registry), dc.Indexes(), dc.sessionId, cc.sessionId, d.transcriptRoot, c.transcriptRoot, epoch)
  }

  method MaterialFromDkgOutputs(b: Dkg.Backend, contextSession: Bits.Bytes -> Bits.Bytes, dc: Dkg.DkgConfig, d: Dkg.DkgOutput, cc: Dkg.DkgConfig, c: Dkg.DkgOutput, epoch: Bits.Bytes)
    returns (r: Result<Material, BridgeError>)
    requires d.publicKeyShares.Keys <= dc.registry.Keys
    ensures r.Ok? ==>
      && Matching(b, contextSession, dc, d, cc, c)
      && r.value.sealingKey == d.publicKey && r.value.keys == PublicKeySet(dc.threshold, d.publicKey, PairedShares(d, c))
      && r.value.secretShare == Ehtdh.SecretShare(d.secretShare.participant, d.secretShare.value, c.secretShare.value)
    ensures r.Ok? ==> r.value.setup.epoch == epoch && NamesRuns(r.value.setup, b, dc, d, cc, c)
    ensures r.Ok? <==>
      && Matching(b, contextSession, dc, d, cc, c)
      && 0 < dc.threshold <= |PairedShares(d, c)| && SharesValid(dc.threshold, d.publicKey, PairedShares(d, c))
  {
    if dc.threshold != cc.threshold {
      return Err(InvalidBridge("threshold mismatch"));
    }
    if b.registryRoot(dc.registry) != b.registryRoot(cc.registry) {
      return Err(InvalidBridge("registry root mismatch"));
    }
    if cc.sessionId != contextSession(dc.sessionId) {
      return Err(InvalidBridge("context session mismatch"));
    }
    if d.secretShare.participant != c.secretShare.participant {
      return Err(InvalidBridge("local participant mismatch"));
    }
    if d.publicKeyShares.Keys != c.publicKeyShares.Keys {
      return Err(InvalidBridge("public share participant mismatch"));
    }
    if c.publicKey != Identity {
      return Err(InvalidBridge("zero-sharing public key is not identity"));
    }
    if d.publicKey == Identity {
      return Err(InvalidBridge("decryption public key is identity"));
    }
    var participants := dc.Indexes();
    if participants != cc.Indexes() {
      return Err(InvalidBridge("participant set mismatch"));
    }
    var shares: PublicShares := map[];
    InOrderFacts(dc.registry.Keys);
    for i := 0 to |participants|
      invariant forall p :: p in shares <==> p in participants[..i]
      invariant forall p :: p in shares ==>
        p in d.publicKeyShares && p in c.publicKeyShares && shares[p] == PublicShare(d.publicKeyShares[p], c.publicKeyShares[p])
    {
      var p := participants[i];
      assert p in participants;
      Dkg.TakesOneMore(participants, i);
      if p !in d.publicKeyShares {
        return Err(InvalidBridge("missing decryption public share"));
      }
      shares := shares[p := PublicShare(d.publicKeyShares[p], c.publicKeyShares[p])];
    }
    assert participants[..|participants|] == participants;
    assert shares == PairedShares(d, c);
    var keys := NewPublicKeySet(dc.threshold, d.publicKey, shares);
    if keys.Err? {
      return Err(Rejected(keys.error));
    }
    r := Ok(Material(d.publicKey, keys.value, Ehtdh.SecretShare(d.secretShare.participant, d.secretShare.value, c.secretShare.value),
      SetupOf(b, dc, d, cc, c, epoch)));
  }

  // ----- the material of completed runs -----

  // A completed run's public shares lie on its aggregate polynomial.
  lemma CompletedExplains(b: Dkg.Backend, config: Dkg.DkgConfig, all: Dkg.Dealings, p: ParticipantIndex, out: Dkg.DkgOutput, select: Selector, shares: PublicShares)
    requires Dkg.Completed(b, config, all, p, out) && shares.Keys == out.publicKeyShares.Keys
    requires forall i :: i in shares ==> Select(select, shares[i]) == out.publicKeyShares[i]
    ensures Explains(Dkg.Aggregate(all, config.threshold), out.publicKey, select, shares)
  {
    EvalAtZero(Dkg.Aggregate(all, config.threshold));
  }

  // Two runs completed by p, whoever dealt, whose second key is the identity: the bridge
  // accepts them, and the material is an honest setup in which p holds its own share.
  lemma CompletedRunsBridge(b: Dkg.Backend, contextSession: Bits.Bytes -> Bits.Bytes, dc: Dkg.DkgConfig, cc: Dkg.DkgConfig, all: Dkg.Dealings, zeros: Dkg.Dealings, p: ParticipantIndex, d: Dkg.DkgOutput, c: Dkg.DkgOutput)
    requires Dkg.Completed(b, dc, all, p, d) && Dkg.Completed(b, cc, zeros, p, c)
    requires dc.threshold == cc.threshold <= |dc.registry| && dc.registry == cc.registry && cc.sessionId == contextSession(dc.sessionId)
    requires c.publicKey == Identity && d.publicKey != Identity && q >= 0x1_0000_0000
    ensures Matching(b, contextSession, dc, d, cc, c)
    ensures 0 < dc.threshold <= |PairedShares(d, c)| && SharesValid(dc.threshold, d.publicKey, PairedShares(d, c))
    ensures
      var f, g := Dkg.Aggregate(all, dc.threshold), Dkg.Aggregate(zeros, dc.threshold);
      var keys := PublicKeySet(dc.threshold, d.publicKey, PairedShares(d, c));
      && Combiner.HonestSetup(keys, f, g)
      && Ehtdh.SecretShare(p, d.secretShare.value, c.secretShare.value) == Combiner.SecretOf(f, g, p)
  {
    var f, g := Dkg.Aggregate(all, dc.threshold), Dkg.Aggregate(zeros, dc.threshold);
    var shares := PairedShares(d, c);
    assert |shares| == |dc.registry| by {
      assert shares.Keys == dc.registry.Keys;
      assert |shares.Keys| == |dc.registry.Keys|;
    }
    CompletedExplains(b, dc, all, p, d, Decryption, shares);
    CompletedExplains(b, cc, zeros, p, c, Context, shares);
    BasisFacts(shares, dc.threshold);
    LargeOrderSeparates(BasisOf(shares, dc.threshold));
    AcceptanceMeansPolynomials(dc.threshold, d.publicKey, shares);
    DkgRun.CompletedShare(b, dc, all, p, d);
    DkgRun.CompletedShare(b, cc, zeros, p, c);
  }

  // A participant's outputs of the two runs.
  datatype Holder = Holder(d: Dkg.DkgOutput, c: Dkg.DkgOutput) {
    function Secret(): Ehtdh.SecretShare {
      Ehtdh.SecretShare(d.secretShare.participant, d.secretShare.value, c.secretShare.value)
    }

    // Completed from these messages of two linked runs, the second of zero sharings.
    predicate Holds(b: Dkg.Backend, dc: Dkg.DkgConfig, cc: Dkg.DkgConfig, all: Dkg.Dealings, zeros: Dkg.Dealings) {
      && dc.threshold == cc.threshold && dc.registry == cc.registry
      && Dkg.Completed(b, dc, all, d.secretShare.participant, d) && Dkg.Completed(b, cc, zeros, d.secretShare.participant, c)
      && d.publicKey != Identity && c.publicKey == Identity
    }

    function Keys(threshold: nat): PublicKeySet
      requires d.publicKeyShares.Keys == c.publicKeyShares.Keys
    {
      PublicKeySet(threshold, d.publicKey, PairedShares(d, c))
    }

    // A decryption share made from these outputs.
    ghost predicate Makes(o: Ehtdh.Oracles, setup: Ehtdh.Bytes, ct: Ehtdh.Ciphertext, dcBytes: Ehtdh.Bytes, share: Ehtdh.DecryptionShare) {
      && share.participant == d.secretShare.participant
      && exists xNonce: Ehtdh.NonZero, zNonce: Ehtdh.NonZero ::
           Ehtdh.DecryptShare(o, setup, Secret(), ct, dcBytes, ct.associatedData, xNonce, zNonce) == Ok(share)
    }
  }

  lemma HoldersAgree(b: Dkg.Backend, dc: Dkg.DkgConfig, cc: Dkg.DkgConfig, all: Dkg.Dealings, zeros: Dkg.Dealings, h: Holder, h': Holder)
    requires h.Holds(b, dc, cc, all, zeros) && h'.Holds(b, dc, cc, all, zeros)
    ensures h.d.publicKeyShares.Keys == h.c.publicKeyShares.Keys && h'.d.publicKeyShares.Keys == h'.c.publicKeyShares.Keys
    ensures h.Keys(dc.threshold) == h'.Keys(dc.threshold)
  {
    DkgRun.CompletedAgree(b, dc, all, h.d.secretShare.participant, h'.d.secretShare.participant, h.d, h'.d);
    DkgRun.CompletedAgree(b, cc, zeros, h.d.secretShare.participant, h'.d.secretShare.participant, h.c, h'.c);
  }

  lemma HolderMakesHonestly(b: Dkg.Backend, dc: Dkg.DkgConfig, cc: Dkg.DkgConfig, all: Dkg.Dealings, zeros: Dkg.Dealings, h: Holder,
                            o: Ehtdh.Oracles, setup: Ehtdh.Bytes, keys: PublicKeySet, ct: Ehtdh.Ciphertext, dcBytes: Ehtdh.Bytes, share: Ehtdh.DecryptionShare)
    requires h.Holds(b, dc, cc, all, zeros) && h.Makes(o, setup, ct, dcBytes, share) && keys.publicShares.Keys == dc.registry.Keys
    ensures Combiner.HonestlyMade(o, setup, keys, Dkg.Aggregate(all, dc.threshold), Dkg.Aggregate(zeros, dc.threshold), ct, dcBytes, share)
  {
    DkgRun.CompletedShare(b, dc, all, h.d.secretShare.participant, h.d);
    DkgRun.CompletedShare(b, cc, zeros, h.d.secretShare.participant, h.c);
    assert h.Secret() == Combiner.SecretOf(Dkg.Aggregate(all, dc.threshold), Dkg.Aggregate(zeros, dc.threshold), share.participant);
  }

  // From key generation to plaintext: shares made by any threshold-many participants
  // that completed the two runs open what was sealed to their joint key.
  lemma KeyGenerationOpens(b: Dkg.Backend, contextSession: Bits.Bytes -> Bits.Bytes, dc: Dkg.DkgConfig, cc: Dkg.DkgConfig, all: Dkg.Dealings, zeros: Dkg.Dealings, holders: seq<Holder>, h: Holder,
                           o: Ehtdh.Oracles, setup: Ehtdh.Bytes, r: Ehtdh.NonZero, rPrime: Ehtdh.NonZero, plaintext: Ehtdh.Bytes, ad: Ehtdh.Bytes, dcBytes: Ehtdh.Bytes, ct: Ehtdh.Ciphertext, shares: seq<Ehtdh.DecryptionShare>)
    requires q >= 0x1_0000_0000 && dc.threshold <= |dc.registry| && cc.sessionId == contextSession(dc.sessionId)
    requires h.Holds(b, dc, cc, all, zeros) && h.d.publicKeyShares.Keys == h.c.publicKeyShares.Keys
    requires |holders| == |shares| == dc.threshold && Unique(Combiner.ParticipantsOf(shares))
    requires Ehtdh.Seal(o, h.d.publicKey, r, rPrime, plaintext, ad) == Ok(ct)
    requires forall i :: 0 <= i < |shares| ==> holders[i].Holds(b, dc, cc, all, zeros) && holders[i].Makes(o, setup, ct, dcBytes, shares[i])
    ensures Combiner.Exact(o, setup, h.Keys(dc.threshold), ct, dcBytes, shares) == Ok(plaintext)
  {
    var f, g := Dkg.Aggregate(all, dc.threshold), Dkg.Aggregate(zeros, dc.threshold);
    var keys := h.Keys(dc.threshold);
    assert Combiner.HonestSetup(keys, f, g) by {
      CompletedRunsBridge(b, contextSession, dc, cc, all, zeros, h.d.secretShare.participant, h.d, h.c);
    }
    HoldersMakeHonestly(b, dc, cc, all, zeros, holders, o, setup, keys, ct, dcBytes, shares);
    LargeOrderSeparates(Combiner.ParticipantsOf(shares));
    HonestSharesOpen(o, setup, keys, f, g, r, rPrime, plaintext, ad, dcBytes, ct, shares);
  }

  lemma HonestSharesOpen(o: Ehtdh.Oracles, setup: Ehtdh.Bytes, keys: PublicKeySet, f: seq<Scalar>, g: seq<Scalar>,
                         r: Ehtdh.NonZero, rPrime: Ehtdh.NonZero, plaintext: Ehtdh.Bytes, ad: Ehtdh.Bytes, dcBytes: Ehtdh.Bytes, ct: Ehtdh.Ciphertext, shares: seq<Ehtdh.DecryptionShare>)
    requires Combiner.HonestSetup(keys, f, g) && Ehtdh.Seal(o, keys.jointPublicKey, r, rPrime, plaintext, ad) == Ok(ct)
    requires |shares| == keys.threshold > 0 && DistinctPoints(Points(Combiner.ParticipantsOf(shares)))
    requires forall s :: s in shares ==> Combiner.HonestlyMade(o, setup, keys, f, g, ct, dcBytes, s)
    ensures Combiner.Exact(o, setup, keys, ct, dcBytes, shares) == Ok(plaintext)
  {
    Combiner.ExactOpens(o, setup, keys, f, g, r, rPrime, plaintext, ad, dcBytes, shares);
  }

  lemma HoldersMakeHonestly(b: Dkg.Backend, dc: Dkg.DkgConfig, cc: Dkg.DkgConfig, all: Dkg.Dealings, zeros: Dkg.Dealings, holders: seq<Holder>,
                            o: Ehtdh.Oracles, setup: Ehtdh.Bytes, keys: PublicKeySet, ct: Ehtdh.Ciphertext, dcBytes: Ehtdh.Bytes, shares: seq<Ehtdh.DecryptionShare>)
    requires |holders| == |shares| && keys.publicShares.Keys == dc.registry.Keys
    requires forall i :: 0 <= i < |shares| ==> holders[i].Holds(b, dc, cc, all, zeros) && holders[i].Makes(o, setup, ct, dcBytes, shares[i])
    ensures forall s :: s in shares ==>
      Combiner.HonestlyMade(o, setup, keys, Dkg.Aggregate(all, dc.threshold), Dkg.Aggregate(zeros, dc.threshold), ct, dcBytes, s)
  {
    forall s | s in shares
      ensures Combiner.HonestlyMade(o, setup, keys, Dkg.Aggregate(all, dc.threshold), Dkg.Aggregate(zeros, dc.threshold), ct, dcBytes, s)
    {
      var i :| 0 <= i < |shares| && shares[i] == s;
      HolderMakesHonestly(b, dc, cc, all, zeros, holders[i], o, setup, keys, ct, dcBytes, s);
    }
  }
}
