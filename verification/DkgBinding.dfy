// What the roots of the key generation bind, and why one completion speaks for all: dkg.rs.
module DkgBinding {
  import opened Wrappers
  import opened Bits
  import opened Scalars
  import opened Vectors
  import opened Polynomials
  import opened Core
  import opened Shamir
  import opened Feldman
  import opened Dkg
  import DkgRun

  // ----- statements name their dealing -----

  // The statements of two well-formed messages are different lists unless the messages
  // differ in their proofs at most and the configurations agree on what is proved.
  lemma StatementsBind(b: Backend, config: DkgConfig, config': DkgConfig, m: DealerMessage, m': DealerMessage)
    requires WellFormed(b, config, m) && WellFormed(b, config', m')
    requires PublicStatements(b, config, m) == PublicStatements(b, config', m') != []
    ensures m' == m.(proof := m'.proof)
    ensures config'.sessionId == config.sessionId && config'.threshold == config.threshold && config'.beta == config.beta
    ensures config'.registry == config.registry
  {
    var rs, rs' := Others(config.Indexes(), m.dealer), Others(config'.Indexes(), m'.dealer);
    var all, all' := PublicStatements(b, config, m), PublicStatements(b, config', m');
    PublicStatementsAre(b, config, m);
    PublicStatementsAre(b, config', m');
    assert all[0] == all'[0];
    OthersAre(config.Indexes(), m.dealer);
    OthersAre(config'.Indexes(), m'.dealer);
    InOrderFacts(config.registry.Keys);
    InOrderFacts(config'.registry.Keys);
    SameStatements(b, config, config', m, m', rs, rs', all);
  }

  lemma SameStatements(b: Backend, config: DkgConfig, config': DkgConfig, m: DealerMessage, m': DealerMessage, rs: seq<ParticipantIndex>, rs': seq<ParticipantIndex>, all: seq<EvrfStatement>)
    requires m.dealer == m'.dealer && m.dealer in config.registry && m'.dealer in config'.registry && SharesCover(config, m) && SharesCover(config', m')
    requires config.registry[m.dealer] == config'.registry[m'.dealer]
    requires |rs| == |rs'| == |all|
    requires forall p :: p in rs <==> p in config.registry && p != m.dealer
    requires forall p :: p in rs' <==> p in config'.registry && p != m.dealer
    requires forall k :: 0 <= k < |rs| ==> Covers(config, m, rs[k]) && all[k] == PublicStatement(b, config, m, rs[k])
    requires forall k :: 0 <= k < |rs'| ==> Covers(config', m', rs'[k]) && all[k] == PublicStatement(b, config', m', rs'[k])
    ensures config.registry == config'.registry && m.encryptedShares == m'.encryptedShares
  {
    forall k | 0 <= k < |rs|
      ensures rs[k] == rs'[k] && config.registry[rs[k]] == config'.registry[rs[k]] && m.encryptedShares[rs[k]] == m'.encryptedShares[rs[k]]
    {
      assert Covers(config, m, rs[k]) && Covers(config', m', rs'[k]);
    }
    assert rs == rs';
    assert config.registry.Keys == config'.registry.Keys;
    forall p | p in config.registry && p != m.dealer
      ensures config.registry[p] == config'.registry[p] && m.encryptedShares[p] == m'.encryptedShares[p]
    {
      assert p in rs;
      var k :| 0 <= k < |rs| && rs[k] == p;
    }
  }

  // ----- the completion's root binds the run -----

  ghost predicate CompletionCollisionFree(b: Backend) {
    forall x: seq<(ParticipantIndex, Bytes)>, y: seq<(ParticipantIndex, Bytes)> :: b.completionRoot(x) == b.completionRoot(y) ==> x == y
  }

  ghost predicate DealingCollisionFree(b: Backend) {
    forall m: DealerMessage, m': DealerMessage :: RootOf(b, m) == RootOf(b, m') ==>
      && m.sessionId == m'.sessionId && m.registryRoot == m'.registryRoot && m.dealer == m'.dealer && m.nonce == m'.nonce
      && m.commitment == m'.commitment && m.encryptedShares == m'.encryptedShares
  }

  lemma RootsName(all: Dealings, all': Dealings)
    requires Roots(all) == Roots(all')
    ensures all.Keys == all'.Keys && forall d :: d in all ==> all[d].transcriptRoot == all'[d].transcriptRoot
  {
    var ds, ds' := Dealers(all), Dealers(all');
    forall i | 0 <= i < |ds|
      ensures ds[i] == ds'[i] && all[ds[i]].transcriptRoot == all'[ds[i]].transcriptRoot
    {
      assert Roots(all)[i] == Roots(all')[i];
    }
    assert |ds| == |Roots(all)| == |ds'|;
    assert ds == ds';
    forall d | d in all
      ensures all[d].transcriptRoot == all'[d].transcriptRoot
    {
      var i :| 0 <= i < |ds| && ds[i] == d;
    }
  }

  // Outputs with one root completed over the same dealers, with the same root from each.
  lemma CompletionRootBinds(b: Backend, config: DkgConfig, config': DkgConfig, all: Dealings, all': Dealings, p: ParticipantIndex, p': ParticipantIndex, out: DkgOutput, out': DkgOutput)
    requires CompletionCollisionFree(b) && out.transcriptRoot == out'.transcriptRoot
    requires Completed(b, config, all, p, out) && Completed(b, config', all', p', out')
    ensures all.Keys == all'.Keys && forall d :: d in all ==> all[d].transcriptRoot == all'[d].transcriptRoot
  {
    RootsName(all, all');
  }

  // Well-formed messages with one root differ in their proofs at most.
  lemma DealingRootBinds(b: Backend, config: DkgConfig, config': DkgConfig, m: DealerMessage, m': DealerMessage)
    requires DealingCollisionFree(b) && WellFormed(b, config, m) && WellFormed(b, config', m') && m.transcriptRoot == m'.transcriptRoot
    ensures m' == m.(proof := m'.proof) && config.sessionId == config'.sessionId && config.threshold == config'.threshold
  {
    assert RootOf(b, m) == RootOf(b, m');
  }

  lemma AcceptedAreWellFormed(b: Backend, config: DkgConfig, secret: Scalar, ownShare: Share, all: Dealings)
    requires KeyedByDealer(all) && ownShare.participant in config.registry && AcceptsAll(b, config, secret, ownShare, all)
    ensures all.Keys == config.registry.Keys && forall d :: d in all ==> WellFormed(b, config, all[d])
  {
    var ps := config.Indexes();
    RegistryOrderIs(all, ps);
    InOrderFacts(config.registry.Keys);
    forall d | d in all
      ensures d in config.registry && WellFormed(b, config, all[d])
    {
      assert ShareAccepted(b, config, all[d], ownShare, secret);
      var i :| 0 <= i < |ps| && ps[i] == d;
      assert WellFormed(b, config, RegistryMessages(config, all)[i]);
    }
  }

  // The aggregate depends on the dealers and their commitments only.
  lemma {:induction false} SameAggregate(all: Dealings, all': Dealings, ds: seq<ParticipantIndex>, n: nat, threshold: nat)
    requires n <= |ds| && forall i :: 0 <= i < |ds| ==> ds[i] in all && ds[i] in all' && all[ds[i]].commitment == all'[ds[i]].commitment
    ensures AggregateTo(all, ds, n, threshold) == AggregateTo(all', ds, n, threshold)
  {
    if n > 0 {
      SameAggregate(all, all', ds, n - 1, threshold);
    }
  }

  // The same dealers dealt the same, up to their proofs.
  predicate SameButProofs(all: Dealings, all': Dealings) {
    all.Keys == all'.Keys && forall d :: d in all ==> all'[d] == all[d].(proof := all'[d].proof)
  }

  // Two participants, in whatever sessions, that accept dealings of one completion root
  // accepted the same session over the same dealings.
  lemma EqualRootsEqualDealings(b: Backend, config: DkgConfig, config': DkgConfig, secret: Scalar, secret': Scalar, ownShare: Share, ownShare': Share,
                                all: Dealings, all': Dealings)
    requires CompletionCollisionFree(b) && DealingCollisionFree(b) && b.completionRoot(Roots(all)) == b.completionRoot(Roots(all'))
    requires KeyedByDealer(all) && ownShare.participant in config.registry && AcceptsAll(b, config, secret, ownShare, all)
    requires KeyedByDealer(all') && ownShare'.participant in config'.registry && AcceptsAll(b, config', secret', ownShare', all')
    ensures SameButProofs(all, all') && all.Keys == config.registry.Keys == config'.registry.Keys
    ensures config.sessionId == config'.sessionId && config.threshold == config'.threshold
    ensures b.registryRoot(config.registry) == b.registryRoot(config'.registry)
  {
    RootsName(all, all');
    AcceptedAreWellFormed(b, config, secret, ownShare, all);
    AcceptedAreWellFormed(b, config', secret', ownShare', all');
    forall d | d in all
      ensures all'[d] == all[d].(proof := all'[d].proof)
    {
      DealingRootBinds(b, config, config', all[d], all'[d]);
    }
    DealingRootBinds(b, config, config', all[ownShare.participant], all'[ownShare.participant]);
  }

  lemma SameDealingsSameKeys(b: Backend, config: DkgConfig, config': DkgConfig, p: ParticipantIndex, p': ParticipantIndex, all: Dealings, all': Dealings, out: DkgOutput, out': DkgOutput)
    requires Completed(b, config, all, p, out) && Completed(b, config', all', p', out')
    requires SameButProofs(all, all') && config.threshold == config'.threshold && config.registry.Keys == config'.registry.Keys
    ensures out.publicKey == out'.publicKey && out.publicKeyShares == out'.publicKeyShares
  {
    assert Dealers(all) == Dealers(all');
    SameAggregate(all, all', Dealers(all), |Dealers(all)|, config.threshold);
  }

  // Outputs of two participants that completed, in whatever sessions, and carry one root
  // also carry one key and one set of public shares.
  lemma EqualRootsEqualKeys(b: Backend, config: DkgConfig, config': DkgConfig, secret: Scalar, secret': Scalar, ownShare: Share, ownShare': Share,
                            all: Dealings, all': Dealings, out: DkgOutput, out': DkgOutput)
    requires CompletionCollisionFree(b) && DealingCollisionFree(b) && out.transcriptRoot == out'.transcriptRoot
    requires KeyedByDealer(all) && AcceptsAll(b, config, secret, ownShare, all) && Completed(b, config, all, ownShare.participant, out)
    requires KeyedByDealer(all') && AcceptsAll(b, config', secret', ownShare', all') && Completed(b, config', all', ownShare'.participant, out')
    ensures config.sessionId == config'.sessionId && config.threshold == config'.threshold
    ensures out.publicKey == out'.publicKey && out.publicKeyShares == out'.publicKeyShares
  {
    EqualRootsEqualDealings(b, config, config', secret, secret', ownShare, ownShare', all, all');
    SameDealingsSameKeys(b, config, config', ownShare.participant, ownShare'.participant, all, all', out, out');
  }

  // ----- one completion speaks for all -----

  // A backend that accepts proofs of true statements only.
  ghost predicate Sound(b: Backend) {
    && (forall statements: seq<EvrfStatement>, proof: Bytes :: b.verify(statements, proof) ==>
        exists witnesses: seq<EvrfWitness> :: b.AllWitnessed(statements, witnesses))
    && (forall batches: seq<(seq<EvrfStatement>, Bytes)> :: b.verifyAll(batches).Ok? ==> b.AllVerify(batches))
  }

  // The receiver of a true statement opens its share.
  lemma WitnessedShareDecrypts(b: Backend, config: DkgConfig, m: DealerMessage, p: ParticipantIndex, secret: Scalar, wit: EvrfWitness)
    requires b.Symmetric() && m.dealer in config.registry && p in config.registry && p in m.encryptedShares
    requires MulGenerator(secret) == config.registry[p] && b.Witnessed(PublicStatement(b, config, m, p), wit)
    ensures Decrypted(b, config, m, p, secret) == Ok(Evaluate(wit.coefficients, p))
  {
    assert b.pad(m.nonce, config.beta, wit.identitySecret, MulGenerator(secret), config.registry[p])
        == b.pad(m.nonce, config.beta, secret, MulGenerator(wit.identitySecret), config.registry[p]);
    DkgRun.Unsealed(wit.share, wit.pad);
    OnlyTheTrueShareMatches(wit.coefficients, Evaluate(wit.coefficients, p));
  }

  // Every receiver of a verified dealing opens its share.
  lemma VerifiedShareDecrypts(b: Backend, config: DkgConfig, ms: seq<DealerMessage>, i: nat, p: ParticipantIndex, secret: Scalar)
    requires Sound(b) && b.Symmetric() && Verified(b, config, ms) && i < |ms|
    requires p in config.registry && p != ms[i].dealer && MulGenerator(secret) == config.registry[p]
    ensures Decrypted(b, config, ms[i], p, secret).Ok?
  {
    var m := ms[i];
    var rs := Others(config.Indexes(), m.dealer);
    var batches := Batches(b, config, ms);
    assert WellFormed(b, config, m);
    PublicStatementsAre(b, config, m);
    OthersAre(config.Indexes(), m.dealer);
    InOrderFacts(config.registry.Keys);
    assert p in rs;
    var k :| 0 <= k < |rs| && rs[k] == p;
    var statements := PublicStatements(b, config, m);
    assert batches[i] == (statements, m.proof) && statements != [];
    assert b.AllVerify(batches);
    assert b.verify(batches[i].0, batches[i].1);
    var witnesses: seq<EvrfWitness> :| b.AllWitnessed(statements, witnesses);
    assert b.Witnessed(statements[k], witnesses[k]);
    assert Covers(config, m, rs[k]);
    WitnessedShareDecrypts(b, config, m, p, secret, witnesses[k]);
  }

  lemma OthersAcceptAll(b: Backend, config: DkgConfig, secret: Scalar, ownShare: Share, all: Dealings, secret': Scalar, kept: Share)
    requires Sound(b) && b.Symmetric() && KeyedByDealer(all)
    requires ownShare.participant in config.registry && AcceptsAll(b, config, secret, ownShare, all)
    requires kept.participant in config.registry && MulGenerator(secret') == config.registry[kept.participant]
    requires kept.participant in all && ShareMatches(all[kept.participant].commitment, kept)
    ensures AcceptsAll(b, config, secret', kept, all)
  {
    var ps := config.Indexes();
    AcceptedAreWellFormed(b, config, secret, ownShare, all);
    RegistryOrderIs(all, ps);
    InOrderFacts(config.registry.Keys);
    forall d | d in all
      ensures ShareAccepted(b, config, all[d], kept, secret')
    {
      assert d in ps;
      var i :| 0 <= i < |ps| && ps[i] == d;
      assert RegistryMessages(config, all)[i] == all[d];
      if d != kept.participant {
        VerifiedShareDecrypts(b, config, RegistryMessages(config, all), i, kept.participant, secret');
      }
    }
  }

  lemma PutBack(all: Dealings, p: ParticipantIndex)
    requires p in all
    ensures (all - {p})[p := all[p]] == all
  {
  }

  lemma AcceptsFrom(b: Backend, config: DkgConfig, p: ParticipantIndex, secret: Scalar, kept: Share, all: Dealings)
    requires p in config.registry && MulGenerator(secret) == config.registry[p] && kept.participant == p
    requires KeyedByDealer(all) && p in all && AcceptsAll(b, config, secret, kept, all)
    ensures Accepts(b, config, p, secret, DkgDealing(all[p], kept), all - {p})
  {
    PutBack(all, p);
  }

  // Public verifiability: when one participant completes over a set of dealings, every
  // registered participant completes over the same set from its own dealing, as soon as the
  // share it kept matches its own commitment.
  lemma OneCompletesAllComplete(b: Backend, config: DkgConfig, p: ParticipantIndex, secret: Scalar, own: DkgDealing, peers: Dealings, secret': Scalar, kept: Share)
    requires Sound(b) && b.Symmetric() && Accepts(b, config, p, secret, own, peers)
    requires kept.participant in config.registry && MulGenerator(secret') == config.registry[kept.participant]
    ensures
      var all := peers[p := own.message];
      kept.participant in all && (ShareMatches(all[kept.participant].commitment, kept) ==>
        Accepts(b, config, kept.participant, secret', DkgDealing(all[kept.participant], kept), all - {kept.participant}))
  {
    var all, p' := peers[p := own.message], kept.participant;
    AcceptedAreWellFormed(b, config, secret, own.privateShare, all);
    if ShareMatches(all[p'].commitment, kept) {
      OthersAcceptAll(b, config, secret, own.privateShare, all, secret', kept);
      AcceptsFrom(b, config, p', secret', kept, all);
    }
  }
}
