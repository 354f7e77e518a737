// Identity keys with their proofs of knowledge, and the participant registry:
// identity_key.rs and the registry of dkg.rs. The challenge hash is a parameter.
module Registries {
  import opened Wrappers
  import opened Scalars
  import opened Core
  import OrderedMap

  // ----- maps as the lists their iterators give -----

  type Pairs<V> = seq<(ParticipantIndex, V)>

  predicate IncreasingKeys<V>(ps: Pairs<V>) {
    forall i, j :: 0 <= i < j < |ps| ==> ps[i].0 < ps[j].0
  }

  function Keys<V>(ps: Pairs<V>): (r: seq<ParticipantIndex>)
    ensures |r| == |ps|
  {
    seq(|ps|, i requires 0 <= i < |ps| => ps[i].0)
  }

  function FromPairs<V>(ps: Pairs<V>): map<ParticipantIndex, V> {
    if |ps| == 0 then map[] else FromPairs(ps[..|ps| - 1])[ps[|ps| - 1].0 := ps[|ps| - 1].1]
  }

  // The entries in ascending order.
  function Listed<V>(m: map<ParticipantIndex, V>): (r: Pairs<V>)
    ensures |r| == |m|
  {
    var ks := InOrder(m.Keys);
    InOrderFacts(m.Keys);
    assert forall i :: 0 <= i < |ks| ==> ks[i] in ks;
    seq(|ks|, i requires 0 <= i < |ks| => (ks[i], m[ks[i]]))
  }

  lemma {:induction false} FromPairsHas<V>(ps: Pairs<V>)
    requires IncreasingKeys(ps)
    ensures forall i :: 0 <= i < |ps| ==> ps[i].0 in FromPairs(ps) && FromPairs(ps)[ps[i].0] == ps[i].1
  {
    if |ps| > 0 {
      var n := |ps| - 1;
      FromPairsHas(ps[..n]);
      assert forall i :: 0 <= i < n ==> ps[..n][i] == ps[i];
    }
  }

  lemma {:induction false} FromPairsKeys<V>(ps: Pairs<V>, p: ParticipantIndex)
    ensures p in FromPairs(ps) <==> p in Keys(ps)
  {
    if |ps| > 0 {
      var n := |ps| - 1;
      FromPairsKeys(ps[..n], p);
      assert Keys(ps) == Keys(ps[..n]) + [ps[n].0];
    }
  }

  // Listing a map and building a map from an ascending list undo each other.
  lemma ListedFromPairs<V>(ps: Pairs<V>)
    requires IncreasingKeys(ps)
    ensures Listed(FromPairs(ps)) == ps
  {
    var m := FromPairs(ps);
    FromPairsHas(ps);
    AscendingKeys(ps);
    assert InOrder(m.Keys) == Keys(ps);
    forall i | 0 <= i < |ps|
      ensures Listed(m)[i] == ps[i]
    {
      assert InOrder(m.Keys)[i] == ps[i].0;
    }
  }

  lemma AscendingKeys<V>(ps: Pairs<V>)
    requires IncreasingKeys(ps)
    ensures InOrder(FromPairs(ps).Keys) == Keys(ps)
  {
    var ks: seq<nat> := Keys(ps);
    var keys: set<nat> := FromPairs(ps).Keys;
    forall x: nat
      ensures x in ks <==> x in keys
    {
      if 1 <= x < 0x1_0000_0000 {
        FromPairsKeys(ps, x);
      }
    }
    OrderedMap.SortedUnique(keys, ks);
    UnfoldInOrder(keys, q);
  }

  lemma ListedIncreases<V>(m: map<ParticipantIndex, V>)
    ensures IncreasingKeys(Listed(m))
  {
    InOrderIncreasing(m.Keys);
  }

  lemma FromPairsListed<V>(m: map<ParticipantIndex, V>)
    ensures FromPairs(Listed(m)) == m
  {
    ListedIncreases(m);
    var ps := Listed(m);
    FromPairsHas(ps);
    InOrderFacts(m.Keys);
    assert Keys(ps) == InOrder(m.Keys);
    forall p: ParticipantIndex
      ensures p in FromPairs(ps) <==> p in m
    {
      FromPairsKeys(ps, p);
    }
    forall p | p in m
      ensures FromPairs(ps)[p] == m[p]
    {
      assert p in Keys(ps);
      var i :| 0 <= i < |ps| && Keys(ps)[i] == p;
      assert ps[i] == (p, m[p]);
    }
  }

  // ----- proofs of knowledge -----

  datatype IdentityKeyProof = IdentityKeyProof(noncePoint: Element, response: Scalar)

  // The hash of a public key and a nonce point.
  type ChallengeHash = (Element, Element) -> Result<Scalar, Error>

  function ProveIdentity(hash: ChallengeHash, secret: Scalar, nonce: Scalar): Result<IdentityKeyProof, Error> {
    match hash(MulGenerator(secret), MulGenerator(nonce))
    case Err(e) => Err(e)
    case Ok(c) => Ok(IdentityKeyProof(MulGenerator(nonce), Add(nonce, Mul(c, secret))))
  }

  function VerifyIdentity(hash: ChallengeHash, proof: IdentityKeyProof, publicKey: Element): Result<(), Error> {
    if proof.noncePoint == Identity then Err(ProofVerificationFailed)
    else
      match hash(publicKey, proof.noncePoint)
      case Err(e) => Err(e)
      case Ok(c) =>
        if MulGenerator(proof.response) == ElementAdd(proof.noncePoint, ElementMul(publicKey, c)) then Ok(())
        else Err(ProofVerificationFailed)
  }

  // An honest proof verifies for its key, except with a zero nonce.
  lemma ProvedIdentityVerifies(hash: ChallengeHash, secret: Scalar, nonce: Scalar)
    requires ProveIdentity(hash, secret, nonce).Ok?
    ensures VerifyIdentity(hash, ProveIdentity(hash, secret, nonce).value, MulGenerator(secret)).Ok? <==> nonce != 0
  {
    var proof := ProveIdentity(hash, secret, nonce).value;
    GeneratorLog(secret);
    GeneratorLog(nonce);
    GeneratorLog(proof.response);
    TimesCommutes(secret, hash(secret, nonce).value);
  }

  // Two proofs from one nonce with different challenges give the secret away: the
  // registered key's logarithm is known to whoever can answer both.
  lemma TwoAnswersRevealSecret(key: Element, nonce: Element, c: Scalar, c': Scalar, response: Scalar, response': Scalar)
    requires c != c'
    requires MulGenerator(response) == ElementAdd(nonce, ElementMul(key, c))
    requires MulGenerator(response') == ElementAdd(nonce, ElementMul(key, c'))
    ensures Mul(Sub(response, response'), Inverse(Sub(c, c'))) == key
  {
    GeneratorLog(response);
    GeneratorLog(response');
    var d := Sub(c, c');
    DifferenceVanishes(c, c');
    var x, x' := Mul(key, c), Mul(key, c');
    RedSub(response, nonce + x, response', nonce + x');
    RedSub(x, Times(key, c), x', Times(key, c'));
    TimesDistributes(key, c, c');
    RedMul(key, key, c - c', d);
    // response - response' == key * d
    RedMul(Sub(response, response'), Times(key, d), Inverse(d), Inverse(d));
    InverseLaw(d);
    TimesAssociates(key, d, Inverse(d));
    RedMul(key, key, Times(d, Inverse(d)), 1);
    TimesUnits(key);
  }

  // A key and a nonce point have at most one accepted proof.
  lemma AcceptedProofIsUnique(hash: ChallengeHash, proof: IdentityKeyProof, proof': IdentityKeyProof, key: Element)
    requires VerifyIdentity(hash, proof, key).Ok? && VerifyIdentity(hash, proof', key).Ok?
    requires proof.noncePoint == proof'.noncePoint
    ensures proof == proof'
  {
    GeneratorLog(proof.response);
    GeneratorLog(proof'.response);
  }

  // Soundness of the verifier: two proofs from one nonce point, accepted under hashes that
  // disagree on it, give a secret of the key.
  lemma AcceptedTwiceKnowsSecret(hash: ChallengeHash, hash': ChallengeHash, proof: IdentityKeyProof, proof': IdentityKeyProof, key: Element)
    requires VerifyIdentity(hash, proof, key).Ok? && VerifyIdentity(hash', proof', key).Ok?
    requires proof.noncePoint == proof'.noncePoint && hash(key, proof.noncePoint) != hash'(key, proof.noncePoint)
    ensures
      var c, c' := hash(key, proof.noncePoint).value, hash'(key, proof.noncePoint).value;
      MulGenerator(Mul(Sub(proof.response, proof'.response), Inverse(Sub(c, c')))) == key
  {
    var c, c' := hash(key, proof.noncePoint).value, hash'(key, proof.noncePoint).value;
    TwoAnswersRevealSecret(key, proof.noncePoint, c, c', proof.response, proof'.response);
    GeneratorLog(key);
  }

  // The proof binds its key: with a hash that answers only an accepted proof's query,
  // nothing but that proof of that key is accepted.
  lemma IdentityProofBinds(hash: ChallengeHash, proof: IdentityKeyProof, key: Element, proof': IdentityKeyProof, key': Element)
    requires VerifyIdentity(hash, proof, key).Ok?
    ensures
      var only: ChallengeHash := (k, n) => if (k, n) == (key, proof.noncePoint) then hash(k, n) else Err(ProofVerificationFailed);
      VerifyIdentity(only, proof', key').Ok? <==> proof' == proof && key' == key
  {
    var only: ChallengeHash := (k, n) => if (k, n) == (key, proof.noncePoint) then hash(k, n) else Err(ProofVerificationFailed);
    if VerifyIdentity(only, proof', key').Ok? {
      AcceptedProofIsUnique(hash, proof, proof', key);
    }
  }

  lemma DifferenceVanishes(x: Scalar, y: Scalar)
    ensures Sub(x, y) == 0 <==> x == y
  {
    if Sub(x, y) == 0 {
      RedAdd(x - y, 0, y, y);
    }
  }

  // ----- the registry -----

  datatype Registered = Registered(publicKey: Element, proof: IdentityKeyProof)

  type Registry = map<ParticipantIndex, Registered>

  function Negated(key: Element): Element {
    ElementSub(Identity, key)
  }

  // The first of the first n entries that registered the key.
  function FirstWith(entries: Pairs<Registered>, n: nat, key: Element): Option<ParticipantIndex>
    requires n <= |entries|
  {
    if n == 0 then None
    else
      var before := FirstWith(entries, n - 1, key);
      if before.None? && entries[n - 1].1.publicKey == key then Some(entries[n - 1].0) else before
  }

  // Why entry n is refused after the n before it were taken.
  function RefusalAt(hash: ChallengeHash, entries: Pairs<Registered>, n: nat): Option<Error>
    requires n < |entries|
  {
    var (p, entry) := entries[n];
    if p in FromPairs(entries[..n]) then Some(DuplicateParticipantIndex(p))
    else if entry.publicKey == Identity then Some(InvalidEncoding)
    else
      match FirstWith(entries, n, entry.publicKey)
      case Some(first) => Some(DuplicateParticipantPublicKey(first, p))
      case None =>
        match FirstWith(entries, n, Negated(entry.publicKey))
        case Some(first) => Some(NegatedParticipantPublicKey(first, p))
        case None =>
          if VerifyIdentity(hash, entry.proof, entry.publicKey).Ok? then None else Some(InvalidIdentityKeyProof(p))
  }

  // The first refusal among the first n entries.
  function Refusal(hash: ChallengeHash, entries: Pairs<Registered>, n: nat): Option<Error>
    requires n <= |entries|
  {
    if n == 0 then None
    else if Refusal(hash, entries, n - 1).Some? then Refusal(hash, entries, n - 1)
    else RefusalAt(hash, entries, n - 1)
  }

  // What a registry promises: distinct participants, proven keys, and no two keys equal
  // or opposite.
  predicate Acceptable(hash: ChallengeHash, entries: Pairs<Registered>) {
    && (forall i :: 0 <= i < |entries| ==>
        entries[i].1.publicKey != Identity && VerifyIdentity(hash, entries[i].1.proof, entries[i].1.publicKey).Ok?)
    && (forall i, j :: 0 <= i < j < |entries| ==>
        && entries[i].0 != entries[j].0 && entries[i].1.publicKey != entries[j].1.publicKey
        && entries[i].1.publicKey != Negated(entries[j].1.publicKey))
  }

  // Entry n goes with the entries before it.
  predicate Admissible(hash: ChallengeHash, entries: Pairs<Registered>, n: nat)
    requires n < |entries|
  {
    && entries[n].1.publicKey != Identity && VerifyIdentity(hash, entries[n].1.proof, entries[n].1.publicKey).Ok?
    && forall i :: 0 <= i < n ==>
      && entries[i].0 != entries[n].0 && entries[i].1.publicKey != entries[n].1.publicKey
      && entries[i].1.publicKey != Negated(entries[n].1.publicKey)
  }

  lemma {:induction false} FirstWithNone(entries: Pairs<Registered>, n: nat, key: Element)
    requires n <= |entries|
    ensures FirstWith(entries, n, key).None? <==> forall i :: 0 <= i < n ==> entries[i].1.publicKey != key
  {
    if n > 0 {
      FirstWithNone(entries, n - 1, key);
    }
  }

  lemma RefusalAtNone(hash: ChallengeHash, entries: Pairs<Registered>, n: nat)
    requires n < |entries|
    ensures RefusalAt(hash, entries, n).None? <==> Admissible(hash, entries, n)
  {
    FromPairsKeys(entries[..n], entries[n].0);
    FirstWithNone(entries, n, entries[n].1.publicKey);
    FirstWithNone(entries, n, Negated(entries[n].1.publicKey));
    assert forall i :: 0 <= i < n ==> Keys(entries[..n])[i] == entries[i].0;
  }

  // The scan refuses nothing exactly when the entries are acceptable.
  lemma {:induction false} RefusesUnacceptable(hash: ChallengeHash, entries: Pairs<Registered>, n: nat)
    requires n <= |entries|
    ensures Refusal(hash, entries, n).None? <==> Acceptable(hash, entries[..n])
  {
    if n > 0 {
      RefusesUnacceptable(hash, entries, n - 1);
      RefusalAtNone(hash, entries, n - 1);
      AcceptableStep(hash, entries, n - 1);
    }
  }

  lemma AcceptableStep(hash: ChallengeHash, entries: Pairs<Registered>, n: nat)
    requires n < |entries|
    ensures Acceptable(hash, entries[..n + 1]) <==> Acceptable(hash, entries[..n]) && Admissible(hash, entries, n)
  {
    var more, less := entries[..n + 1], entries[..n];
    assert forall i :: 0 <= i < n ==> more[i] == less[i] == entries[i];
    assert more[n] == entries[n];
  }

  // Building the registry entry by entry.
  method NewRegistry(hash: ChallengeHash, entries: Pairs<Registered>) returns (r: Result<Registry, Error>)
    ensures r.Ok? <==> Acceptable(hash, entries)
    ensures r.Ok? ==> r.value == FromPairs(entries)
    ensures r.Err? ==> Refusal(hash, entries, |entries|) == Some(r.error)
  {
    var participants: Registry := map[];
    assert entries[..|entries|] == entries;
    for n := 0 to |entries|
      invariant participants == FromPairs(entries[..n])
      invariant Refusal(hash, entries, n).None?
    {
      RefusesUnacceptable(hash, entries, n);
      var (p, entry) := entries[n];
      var refused := RefuseEntry(hash, entries, n, participants);
      if refused.Some? {
        RefusalStays(hash, entries, n + 1);
        RefusesUnacceptable(hash, entries, |entries|);
        return Err(refused.value);
      }
      assert entries[..n + 1][..n] == entries[..n];
      participants := participants[p := entry];
    }
    RefusesUnacceptable(hash, entries, |entries|);
    return Ok(participants);
  }

  // The checks on one entry, against the keys registered before it.
  method RefuseEntry(hash: ChallengeHash, entries: Pairs<Registered>, n: nat, participants: Registry) returns (refused: Option<Error>)
    requires n < |entries| && participants == FromPairs(entries[..n])
    ensures refused == RefusalAt(hash, entries, n)
  {
    var (p, entry) := entries[n];
    if p in participants {
      return Some(DuplicateParticipantIndex(p));
    }
    if entry.publicKey == Identity {
      return Some(InvalidEncoding);
    }
    var known := FindKey(entries, n, entry.publicKey);
    if known.Some? {
      return Some(DuplicateParticipantPublicKey(known.value, p));
    }
    var negated := FindKey(entries, n, Negated(entry.publicKey));
    if negated.Some? {
      return Some(NegatedParticipantPublicKey(negated.value, p));
    }
    if VerifyIdentity(hash, entry.proof, entry.publicKey).Err? {
      return Some(InvalidIdentityKeyProof(p));
    }
    return None;
  }

  method FindKey(entries: Pairs<Registered>, n: nat, key: Element) returns (found: Option<ParticipantIndex>)
    requires n <= |entries|
    ensures found == FirstWith(entries, n, key)
  {
    found := None;
    for i := 0 to n
      invariant found.None? && FirstWith(entries, i, key).None?
    {
      if entries[i].1.publicKey == key {
        FirstWithStays(entries, i + 1, n, key);
        return Some(entries[i].0);
      }
    }
  }

  lemma {:induction false} FirstWithStays(entries: Pairs<Registered>, i: nat, n: nat, key: Element)
    requires i <= n <= |entries| && FirstWith(entries, i, key).Some?
    ensures FirstWith(entries, n, key) == FirstWith(entries, i, key)
    decreases n
  {
    if i < n {
      FirstWithStays(entries, i, n - 1, key);
    }
  }

  lemma RefusalStays(hash: ChallengeHash, entries: Pairs<Registered>, n: nat)
    requires n <= |entries| && Refusal(hash, entries, n).Some?
    ensures Refusal(hash, entries, |entries|) == Refusal(hash, entries, n)
  {
    RefusalStaysTo(hash, entries, n, |entries|);
  }

  lemma {:induction false} RefusalStaysTo(hash: ChallengeHash, entries: Pairs<Registered>, n: nat, m: nat)
    requires n <= m <= |entries| && Refusal(hash, entries, n).Some?
    ensures Refusal(hash, entries, m) == Refusal(hash, entries, n)
    decreases m
  {
    if n < m {
      RefusalStaysTo(hash, entries, n, m - 1);
    }
  }
}
