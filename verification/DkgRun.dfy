// Whole runs of the key generation: dkg.rs.
module DkgRun {
  import opened Wrappers
  import opened Scalars
  import opened Vectors
  import opened Polynomials
  import opened Core
  import opened Shamir
  import opened Feldman
  import opened Dkg

  type Run = map<ParticipantIndex, DkgDealing>

  // Every registered participant has dealt, with its own secret and polynomial.
  ghost predicate HonestRun(b: Backend, config: DkgConfig, secrets: map<ParticipantIndex, Scalar>, polynomials: map<ParticipantIndex, seq<Scalar>>, run: Run) {
    && run.Keys == secrets.Keys == polynomials.Keys == config.registry.Keys
    && forall d :: d in run ==> run[d].message.dealer == d && HonestDealing(b, config, secrets[d], polynomials[d], run[d])
  }

  function PeersOf(run: Run, p: ParticipantIndex): Dealings {
    map d | d in run && d != p :: run[d].message
  }

  function Messages(run: Run): Dealings {
    map d | d in run :: run[d].message
  }

  // Every participant completes from the same messages.
  lemma SameMessages(run: Run, p: ParticipantIndex)
    requires p in run
    ensures PeersOf(run, p)[p := run[p].message] == Messages(run)
  {
  }

  // The pad cancels: a receiver recovers the dealer's value at its index.
  lemma HonestShareDecrypts(b: Backend, config: DkgConfig, secrets: map<ParticipantIndex, Scalar>, polynomials: map<ParticipantIndex, seq<Scalar>>, run: Run, d: ParticipantIndex, p: ParticipantIndex)
    requires b.Symmetric() && HonestRun(b, config, secrets, polynomials, run) && d in run && p in run && d != p
    ensures Decrypted(b, config, run[d].message, p, secrets[p]) == Ok(Evaluate(polynomials[d], p))
  {
    var m := run[d].message;
    assert HonestDealing(b, config, secrets[d], polynomials[d], run[d]);
    assert MulGenerator(secrets[p]) == config.registry[p] by {
      assert HonestDealing(b, config, secrets[p], polynomials[p], run[p]);
    }
    assert p in m.encryptedShares;
    SymmetricDecryption(b, config, secrets[d], secrets[p], polynomials[d], m, p);
  }

  lemma SymmetricDecryption(b: Backend, config: DkgConfig, dealerSecret: Scalar, secret: Scalar, f: seq<Scalar>, m: DealerMessage, p: ParticipantIndex)
    requires b.Symmetric() && m.dealer in config.registry && p in config.registry && p in m.encryptedShares && m.commitment == Commit(f)
    requires MulGenerator(dealerSecret) == config.registry[m.dealer] && MulGenerator(secret) == config.registry[p]
    requires HonestShare(b, config, dealerSecret, f, m.nonce, p, m.encryptedShares[p])
    ensures Decrypted(b, config, m, p, secret) == Ok(Evaluate(f, p))
  {
    assert b.pad(m.nonce, config.beta, dealerSecret, MulGenerator(secret), config.registry[p])
        == b.pad(m.nonce, config.beta, secret, MulGenerator(dealerSecret), config.registry[p]);
    Unsealed(Evaluate(f, p).value, DealerPad(b, config, dealerSecret, m.nonce, p).value);
    OnlyTheTrueShareMatches(f, Evaluate(f, p));
  }

  lemma Unsealed(share: Scalar, pad: Scalar)
    ensures Sub(Sealed(share, pad).encryptedShare, pad) == share
  {
    RedSub(Add(share, pad), share + pad, pad, pad);
  }

  lemma HonestShareAccepted(b: Backend, config: DkgConfig, secrets: map<ParticipantIndex, Scalar>, polynomials: map<ParticipantIndex, seq<Scalar>>, run: Run, d: ParticipantIndex, p: ParticipantIndex)
    requires b.Symmetric() && HonestRun(b, config, secrets, polynomials, run) && d in run && p in run
    ensures ShareAccepted(b, config, run[d].message, run[p].privateShare, secrets[p])
  {
    assert HonestDealing(b, config, secrets[p], polynomials[p], run[p]);
    if d == p {
      OnlyTheTrueShareMatches(polynomials[p], run[p].privateShare);
    } else {
      HonestShareDecrypts(b, config, secrets, polynomials, run, d, p);
    }
  }

  lemma HonestMessagesVerify(b: Backend, config: DkgConfig, secrets: map<ParticipantIndex, Scalar>, polynomials: map<ParticipantIndex, seq<Scalar>>, run: Run, p: ParticipantIndex)
    requires b.Complete() && HonestRun(b, config, secrets, polynomials, run) && p in run
    ensures Verified(b, config, RegistryMessages(config, Messages(run)))
  {
    var ms := RegistryMessages(config, Messages(run));
    RegistryMessagesAre(config, run, p);
    forall i | 0 <= i < |ms|
      ensures WellFormed(b, config, ms[i]) && ProofHolds(b, config, ms[i])
    {
      var d := ms[i].dealer;
      assert HonestDealing(b, config, secrets[d], polynomials[d], run[d]);
    }
    HonestProofs(b, config, ms);
  }

  lemma RegistryMessagesAre(config: DkgConfig, run: Run, p: ParticipantIndex)
    requires p in run && run.Keys == config.registry.Keys && forall d :: d in run ==> run[d].message.dealer == d
    ensures
      var ms := RegistryMessages(config, Messages(run));
      ms != [] && forall i :: 0 <= i < |ms| ==> ms[i].dealer in run && ms[i] == run[ms[i].dealer].message
  {
    var ps := config.Indexes();
    RegistryOrderIs(Messages(run), ps);
    InOrderFacts(config.registry.Keys);
    assert p in ps;
    forall i | 0 <= i < |ps|
      ensures ps[i] in run
    {
      assert ps[i] in ps;
    }
  }

  lemma HonestProofs(b: Backend, config: DkgConfig, ms: seq<DealerMessage>)
    requires b.Complete() && ms != []
    requires forall i :: 0 <= i < |ms| ==> WellFormed(b, config, ms[i]) && ProofHolds(b, config, ms[i])
    ensures Verified(b, config, ms)
  {
    var batches := Batches(b, config, ms);
    if NothingToProve(batches) {
      forall i | 0 <= i < |ms|
        ensures ms[i].proof == []
      {
        assert batches[i].0 == PublicStatements(b, config, ms[i]);
      }
    } else {
      forall i | 0 <= i < |batches|
        ensures b.verify(batches[i].0, batches[i].1)
      {
        SameShape(b, config, ms, i);
      }
      assert b.AllVerify(batches);
    }
  }

  // Either every dealer of a run has receivers or none does.
  lemma SameShape(b: Backend, config: DkgConfig, ms: seq<DealerMessage>, i: nat)
    requires i < |ms| && AllWellFormed(b, config, ms) && !NothingToProve(Batches(b, config, ms))
    ensures PublicStatements(b, config, ms[i]) != []
  {
    var k :| 0 <= k < |ms| && Batches(b, config, ms)[k].0 != [];
    var ps := config.Indexes();
    InOrderFacts(config.registry.Keys);
    OthersAre(ps, ms[k].dealer);
    OthersAre(ps, ms[i].dealer);
    PublicStatementsAre(b, config, ms[k]);
    PublicStatementsAre(b, config, ms[i]);
    var other := Others(ps, ms[k].dealer)[0];
    assert other in Others(ps, ms[k].dealer);
    if ms[i].dealer == other {
      assert ms[k].dealer in Others(ps, ms[i].dealer);
    } else {
      assert other in Others(ps, ms[i].dealer);
    }
  }

  // Every participant of an honest run completes.
  lemma HonestRunAccepts(b: Backend, config: DkgConfig, secrets: map<ParticipantIndex, Scalar>, polynomials: map<ParticipantIndex, seq<Scalar>>, run: Run, p: ParticipantIndex)
    requires b.Complete() && b.Symmetric() && HonestRun(b, config, secrets, polynomials, run) && p in run
    ensures Accepts(b, config, p, secrets[p], run[p], PeersOf(run, p))
  {
    assert HonestDealing(b, config, secrets[p], polynomials[p], run[p]);
    HonestRunAcceptsAll(b, config, secrets, polynomials, run, p);
    SameMessages(run, p);
  }

  lemma HonestRunAcceptsAll(b: Backend, config: DkgConfig, secrets: map<ParticipantIndex, Scalar>, polynomials: map<ParticipantIndex, seq<Scalar>>, run: Run, p: ParticipantIndex)
    requires b.Complete() && b.Symmetric() && HonestRun(b, config, secrets, polynomials, run) && p in run
    ensures AcceptsAll(b, config, secrets[p], run[p].privateShare, Messages(run))
  {
    assert HonestDealing(b, config, secrets[p], polynomials[p], run[p]);
    HonestMessagesVerify(b, config, secrets, polynomials, run, p);
    forall d | d in Messages(run)
      ensures ShareAccepted(b, config, Messages(run)[d], run[p].privateShare, secrets[p])
    {
      HonestShareAccepted(b, config, secrets, polynomials, run, d, p);
    }
  }

  // ----- what completed participants hold -----

  // Participants that accepted the same messages agree on the key, on every public
  // share and on the transcript.
  lemma CompletedAgree(b: Backend, config: DkgConfig, all: Dealings, p: ParticipantIndex, p': ParticipantIndex, out: DkgOutput, out': DkgOutput)
    requires Completed(b, config, all, p, out) && Completed(b, config, all, p', out')
    ensures out.publicKey == out'.publicKey && out.publicKeyShares == out'.publicKeyShares && out.transcriptRoot == out'.transcriptRoot
  {
  }

  // A completed participant's secret share is the aggregate polynomial at its index.
  lemma CompletedShare(b: Backend, config: DkgConfig, all: Dealings, p: ParticipantIndex, out: DkgOutput)
    requires Completed(b, config, all, p, out)
    ensures out.secretShare == Evaluate(Aggregate(all, config.threshold), p)
    ensures out.publicKey == MulGenerator(Aggregate(all, config.threshold)[0])
  {
    GeneratorLog(out.secretShare.value);
    GeneratorLog(Aggregate(all, config.threshold)[0]);
  }

  // Any threshold-many distinct secret shares reconstruct the logarithm of the key,
  // whoever dealt.
  lemma AnySharesOpenKey(b: Backend, config: DkgConfig, all: Dealings, outs: seq<DkgOutput>)
    requires |outs| >= config.threshold > 0
    requires forall i :: 0 <= i < |outs| ==> Completed(b, config, all, outs[i].secretShare.participant, outs[i])
    requires DistinctPoints(Points(Participants(SecretShares(outs))))
    ensures Reconstructed(Reducing, SecretShares(outs), config.threshold).Ok?
    ensures MulGenerator(Reconstructed(Reducing, SecretShares(outs), config.threshold).value) == outs[0].publicKey
  {
    var f := Aggregate(all, config.threshold);
    var shares := SecretShares(outs);
    forall i | 0 <= i < |outs|
      ensures shares[i] == Evaluate(f, shares[i].participant)
    {
      CompletedShare(b, config, all, outs[i].secretShare.participant, outs[i]);
    }
    ReducingConverts(Participants(shares));
    ReconstructionRecoversSecret(Reducing, f, config.threshold, shares);
    CompletedShare(b, config, all, outs[0].secretShare.participant, outs[0]);
  }

  function SecretShares(outs: seq<DkgOutput>): (r: seq<Share>)
    ensures |r| == |outs|
  {
    seq(|outs|, i requires 0 <= i < |outs| => outs[i].secretShare)
  }

  // ----- the key of an honest run -----

  // The sum of the dealers' polynomials at x.
  function JointValue(polynomials: map<ParticipantIndex, seq<Scalar>>, ds: seq<ParticipantIndex>, n: nat, x: int): int
    requires n <= |ds|
  {
    if n == 0 then 0
    else JointValue(polynomials, ds, n - 1, x) + if ds[n - 1] in polynomials then Eval(polynomials[ds[n - 1]], x) else 0
  }

  function Joint(polynomials: map<ParticipantIndex, seq<Scalar>>, all: Dealings, x: int): Scalar {
    Red(JointValue(polynomials, Dealers(all), |Dealers(all)|, x))
  }

  // The dealers committed to these polynomials.
  predicate Committed(polynomials: map<ParticipantIndex, seq<Scalar>>, all: Dealings, ds: seq<ParticipantIndex>, threshold: nat) {
    forall i :: 0 <= i < |ds| ==>
      ds[i] in all && ds[i] in polynomials && |polynomials[ds[i]]| == threshold && all[ds[i]].commitment == polynomials[ds[i]]
  }

  lemma HonestlyCommitted(b: Backend, config: DkgConfig, secrets: map<ParticipantIndex, Scalar>, polynomials: map<ParticipantIndex, seq<Scalar>>, run: Run)
    requires HonestRun(b, config, secrets, polynomials, run)
    ensures Committed(polynomials, Messages(run), Dealers(Messages(run)), config.threshold)
  {
    forall d | d in run
      ensures |polynomials[d]| == config.threshold && run[d].message.commitment == polynomials[d]
    {
      assert HonestDealing(b, config, secrets[d], polynomials[d], run[d]);
      CommitLogs(polynomials[d]);
    }
  }

  lemma {:induction false} AggregateIsJoint(polynomials: map<ParticipantIndex, seq<Scalar>>, all: Dealings, ds: seq<ParticipantIndex>, threshold: nat, n: nat, x: int)
    requires Committed(polynomials, all, ds, threshold) && n <= |ds|
    ensures Red(Eval(AggregateTo(all, ds, n, threshold), x)) == Red(JointValue(polynomials, ds, n, x))
  {
    if n == 0 {
      ZeroEval(threshold, x);
    } else {
      AggregateIsJoint(polynomials, all, ds, threshold, n - 1, x);
      var f := polynomials[ds[n - 1]];
      var before := AggregateTo(all, ds, n - 1, threshold);
      AddedEval(before, f, x);
      RedAdd(Eval(before, x), JointValue(polynomials, ds, n - 1, x), Eval(f, x), Eval(f, x));
    }
  }

  // Secret shares are the sums of the dealers' values, the key the sum of their secrets.
  lemma HonestOutput(b: Backend, config: DkgConfig, secrets: map<ParticipantIndex, Scalar>, polynomials: map<ParticipantIndex, seq<Scalar>>, run: Run, p: ParticipantIndex, out: DkgOutput)
    requires HonestRun(b, config, secrets, polynomials, run) && Completed(b, config, Messages(run), p, out)
    ensures out.secretShare.value == Joint(polynomials, Messages(run), ToScalar(p))
    ensures out.publicKey == MulGenerator(Joint(polynomials, Messages(run), 0))
  {
    HonestlyCommitted(b, config, secrets, polynomials, run);
    CommittedOutput(b, config, polynomials, Messages(run), p, out);
  }

  lemma CommittedOutput(b: Backend, config: DkgConfig, polynomials: map<ParticipantIndex, seq<Scalar>>, all: Dealings, p: ParticipantIndex, out: DkgOutput)
    requires Committed(polynomials, all, Dealers(all), config.threshold) && Completed(b, config, all, p, out)
    ensures out.secretShare.value == Joint(polynomials, all, ToScalar(p)) && out.publicKey == MulGenerator(Joint(polynomials, all, 0))
  {
    var ds := Dealers(all);
    CompletedShare(b, config, all, p, out);
    AggregateIsJoint(polynomials, all, ds, config.threshold, |ds|, ToScalar(p));
    AggregateIsJoint(polynomials, all, ds, config.threshold, |ds|, 0);
    EvalAtZero(Aggregate(all, config.threshold));
  }

  // When every dealer shares zero the key is the identity.
  lemma ZeroRunHasIdentityKey(b: Backend, config: DkgConfig, secrets: map<ParticipantIndex, Scalar>, polynomials: map<ParticipantIndex, seq<Scalar>>, run: Run, p: ParticipantIndex, out: DkgOutput)
    requires HonestRun(b, config, secrets, polynomials, run) && Completed(b, config, Messages(run), p, out)
    requires forall d :: d in polynomials ==> |polynomials[d]| > 0 && polynomials[d][0] == 0
    ensures out.publicKey == Identity
  {
    var ds := Dealers(Messages(run));
    HonestOutput(b, config, secrets, polynomials, run, p, out);
    JointOfZeros(polynomials, ds, |ds|);
    GeneratorLog(0);
  }

  lemma {:induction false} JointOfZeros(polynomials: map<ParticipantIndex, seq<Scalar>>, ds: seq<ParticipantIndex>, n: nat)
    requires n <= |ds|
    requires forall d :: d in polynomials ==> |polynomials[d]| > 0 && polynomials[d][0] == 0
    ensures Red(JointValue(polynomials, ds, n, 0)) == 0
  {
    if n > 0 {
      JointOfZeros(polynomials, ds, n - 1);
      if ds[n - 1] in polynomials {
        EvalAtZero(polynomials[ds[n - 1]]);
        RedAdd(JointValue(polynomials, ds, n - 1, 0), 0, Eval(polynomials[ds[n - 1]], 0), 0);
      }
    }
  }
}
