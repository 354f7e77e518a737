// The pad a dealer and a receiver derive from each other's keys, outside the circuit: dkg_backend.rs.
module PadDerivation {
  import opened Wrappers
  import opened Core
  import opened Modular
  import opened Scalars
  import opened LinearCombinations
  import opened BitGadgets
  import opened Chords
  import opened ReceiverSlot
  import opened BatchedCircuit

  // The affine coordinates of k G, if it has any.
  function AffineOf(curve: Curve, k: Log): Result<Affine, Error> {
    if curve.IsIdentity(k) then Err(ProofVerificationFailed) else Ok(curve.at(k))
  }

  // An element of the circuit's field as a scalar of the inner group.
  function Reduce(curve: Curve, x: Scalar): nat {
    assert IsPrime(curve.order);
    x % curve.order
  }

  // S = secret P, k = S.x, then beta (k H1).x + (k H2).x
  function ComputePad(curve: Curve, h1: Log, h2: Log, beta: Scalar, secret: nat, peer: Log): Result<Scalar, Error> {
    var s :- AffineOf(curve, Times(secret, peer));
    var k := Reduce(curve, s.x);
    var t1 :- AffineOf(curve, Times(k, h1));
    var t2 :- AffineOf(curve, Times(k, h2));
    Ok(Add(Mul(beta, t1.x), t2.x))
  }

  function DerivePad(curve: Curve, h1: Log, h2: Log, beta: Scalar, secret: nat, peer: Log): Result<nat, Error> {
    var r :- ComputePad(curve, h1, h2, beta, secret, peer);
    Ok(Reduce(curve, r))
  }

  lemma {:induction false} UnfoldIdentity(curve: Curve, k: Log, n: nat)
    ensures IsPrime(curve.order) && (curve.FoldedIdentity(k, n) <==> k % curve.order == 0)
    decreases n
  {
    if n > 0 {
      UnfoldIdentity(curve, k, n - 1);
    } else {
      assert IsPrime(curve.order);
    }
  }

  // One point has one pair of coordinates, however its logarithm is written.
  lemma SameAffine(curve: Curve, j: Log, k: Log)
    requires curve.Periodic() && SamePoint(curve.order, j, k)
    ensures AffineOf(curve, j) == AffineOf(curve, k) && curve.at(j) == curve.at(k)
  {
    UnfoldIdentity(curve, j, q);
    UnfoldIdentity(curve, k, q);
  }

  lemma SameMultiple(order: Prime, c: int, j: Log, k: Log)
    requires SamePoint(order, j, k)
    ensures SamePoint(order, Times(c, j), Times(c, k)) && SamePoint(order, Times(j, c), Times(k, c))
  {
    assert IsPrime(order);
    var d := DiffFromCong(order, j, k);
    TimesDistributes(c, j, k);
    TimesIsProduct(c, order * d);
    assert c * (order * d) == order * (c * d);
    CongFromDiff(order, Times(c, j), Times(c, k), c * d);
    TimesCommutes(c, j);
    TimesCommutes(c, k);
  }

  // Both sides derive one pad from their own secret and the other's public key.
  lemma PadsAgree(curve: Curve, h1: Log, h2: Log, beta: Scalar, a: nat, b: nat, A: Log, B: Log)
    requires curve.Periodic() && SamePoint(curve.order, A, a) && SamePoint(curve.order, B, b)
    ensures DerivePad(curve, h1, h2, beta, a, B) == DerivePad(curve, h1, h2, beta, b, A)
  {
    SameMultiple(curve.order, a, B, b);
    SameMultiple(curve.order, b, A, a);
    TimesCommutes(a, b);
    SameAffine(curve, Times(a, B), Times(b, A));
  }

  lemma ReducedMultiple(curve: Curve, x: Scalar, h: Log)
    requires curve.Periodic()
    ensures AffineOf(curve, Times(Reduce(curve, x), h)) == AffineOf(curve, Times(x, h))
  {
    assert IsPrime(curve.order);
    assert x - x % curve.order == curve.order * (x / curve.order);
    CongFromDiff(curve.order, x, x % curve.order, x / curve.order);
    SameMultiple(curve.order, h, x % curve.order, x);
    SameAffine(curve, Times(Reduce(curve, x), h), Times(x, h));
  }

  // The pad of a slot is the derived one: the circuit's exponent k is not reduced modulo
  // the inner order, but the points are the same.
  lemma SlotPadIsDerived(setting: Setting, st: BatchedStatement, i: nat, sk: nat)
    requires setting.Valid() && i < |st.receivers| && sk < setting.curve.order
    requires DerivePad(setting.curve, st.h1, st.h2, st.beta, sk, st.receivers[i].pkj).Ok?
    ensures DerivePad(setting.curve, st.h1, st.h2, st.beta, sk, st.receivers[i].pkj) == Ok(setting.SlotOf(st, i).Pad(SkBits(sk)))
  {
    SkNumber(sk);
    var k := setting.curve.at(Times(sk, st.receivers[i].pkj)).x;
    ReducedMultiple(setting.curve, k, st.h1);
    ReducedMultiple(setting.curve, k, st.h2);
  }

  // A regular exponentiation ends in a finite point.
  lemma RegularHasAffine(c: Chord, bits: seq<bool>)
    requires c.curve.Lawful() && c.Tabulable() && c.lambda == K_BITS && |bits| == K_BITS + 1 && c.RegularTo(bits, WINDOWS)
    ensures AffineOf(c.curve, Times(Number(bits), c.base)).Ok?
  {
    c.PointsAreFinite(bits, WINDOWS);
    c.RunningIsMultiple(bits);
    SameAffine(c.curve, c.Point(bits, WINDOWS), Times(Number(bits), c.base));
  }

  // A served receiver's pad can be derived.
  lemma ServedDerives(setting: Setting, st: BatchedStatement, i: nat, sk: nat)
    requires setting.Valid() && i < |st.receivers| && sk < setting.curve.order && setting.SlotOf(st, i).Valid()
    requires Served(setting.SlotOf(st, i), sk, st.receivers[i].padCommitment)
    ensures DerivePad(setting.curve, st.h1, st.h2, st.beta, sk, st.receivers[i].pkj).Ok?
  {
    var sl := setting.SlotOf(st, i);
    UnfoldServed(sl, sk, st.receivers[i].padCommitment, q);
    SkNumber(sk);
    SlotNumbers(sl, SkBits(sk));
    RegularHasAffine(sl.h1, sl.KBits(SkBits(sk)));
    RegularHasAffine(sl.h2, sl.KBits(SkBits(sk)));
    var k := setting.curve.at(Times(sk, st.receivers[i].pkj)).x;
    ReducedMultiple(setting.curve, k, st.h1);
    ReducedMultiple(setting.curve, k, st.h2);
  }

  // The receiver of a provable statement derives, from its own secret and the dealer's key,
  // the pad that the statement commits to.
  lemma ReceiverOpensCommitment(setting: Setting, st: BatchedStatement, i: nat, sk: nat, receiverSecret: nat)
    requires setting.Valid() && i < |st.receivers| && Provable(setting, st, sk)
    requires SamePoint(setting.curve.order, st.receivers[i].pkj, receiverSecret)
    ensures
      var pad := DerivePad(setting.curve, st.h1, st.h2, st.beta, receiverSecret, st.pk1);
      pad.Ok? && pad.value == setting.SlotOf(st, i).Pad(SkBits(sk)) && SamePoint(setting.curve.order, pad.value, st.receivers[i].padCommitment)
  {
    var sl := setting.SlotOf(st, i);
    assert sl.Valid();
    assert Served(sl, sk, st.receivers[i].padCommitment);
    UnfoldServed(sl, sk, st.receivers[i].padCommitment, q);
    ServedDerives(setting, st, i, sk);
    SlotPadIsDerived(setting, st, i, sk);
    PadsAgree(setting.curve, st.h1, st.h2, st.beta, sk, receiverSecret, st.pk1, st.receivers[i].pkj);
    TimesUnits(sl.Pad(SkBits(sk)));
  }

  // Whatever wires satisfy the circuit, a receiver that derives a pad from the secret they
  // carry derives the one its commitment is to.
  lemma SatisfiedBindsDerivedPad(w: Wires, setting: Setting, st: BatchedStatement, n: nat, skBits: seq<Variable>, i: nat, receiverSecret: nat)
    requires setting.Valid() && |skBits| == K_BITS + 1 && i < n <= |st.receivers| && RelationHolds(w, setting, st, n, skBits)
    requires SamePoint(setting.curve.order, st.receivers[i].pkj, receiverSecret)
    requires setting.SlotOf(st, i).Regular(ReadBits(w, skBits))
    requires DerivePad(setting.curve, st.h1, st.h2, st.beta, receiverSecret, Number(ReadBits(w, skBits))).Ok?
    ensures
      var pad := DerivePad(setting.curve, st.h1, st.h2, st.beta, receiverSecret, Number(ReadBits(w, skBits))).value;
      setting.curve.at(st.receivers[i].padCommitment) == setting.curve.at(pad)
  {
    var bits, sl := ReadBits(w, skBits), setting.SlotOf(st, i);
    var sk := Number(bits);
    PadsAgree(setting.curve, st.h1, st.h2, st.beta, sk, receiverSecret, sk, st.receivers[i].pkj);
    var k := setting.curve.at(Times(sk, st.receivers[i].pkj)).x;
    ReducedMultiple(setting.curve, k, st.h1);
    ReducedMultiple(setting.curve, k, st.h2);
    UnfoldBinds(w, sl, skBits, st.receivers[i].padCommitment, q);
    TimesUnits(sl.Pad(bits));
  }

  // A receiver whose pad can be derived, and whose commitment is to it.
  predicate CommitsToDerived(setting: Setting, st: BatchedStatement, i: nat, sk: nat)
    requires i < |st.receivers|
  {
    var pad := DerivePad(setting.curve, st.h1, st.h2, st.beta, sk, st.receivers[i].pkj);
    pad.Ok? && SamePoint(setting.curve.order, pad.value, st.receivers[i].padCommitment)
  }

  // What can be proved, in terms of the derivation outside the circuit: the key is the
  // secret's, the tables exist, no addition is exceptional, and every commitment is to its
  // derived pad.
  lemma ProvableMeansDerived(setting: Setting, st: BatchedStatement, sk: nat)
    requires setting.Valid() && sk < setting.curve.order
    ensures Provable(setting, st, sk) <==>
      && SamePoint(setting.curve.order, sk, st.pk1) && setting.ChordOf(1).RegularTo(SkBits(sk), WINDOWS) && Buildable(setting, st)
      && forall i :: 0 <= i < |st.receivers| ==> setting.SlotOf(st, i).Regular(SkBits(sk)) && CommitsToDerived(setting, st, i, sk)
  {
    if Buildable(setting, st) {
      forall i | 0 <= i < |st.receivers|
        ensures Served(setting.SlotOf(st, i), sk, st.receivers[i].padCommitment) <==>
          setting.SlotOf(st, i).Regular(SkBits(sk)) && CommitsToDerived(setting, st, i, sk)
      {
        ServedMeansDerived(setting, st, i, sk);
      }
    }
  }

  lemma ServedMeansDerived(setting: Setting, st: BatchedStatement, i: nat, sk: nat)
    requires setting.Valid() && sk < setting.curve.order && i < |st.receivers| && setting.SlotOf(st, i).Valid()
    ensures Served(setting.SlotOf(st, i), sk, st.receivers[i].padCommitment) <==>
      setting.SlotOf(st, i).Regular(SkBits(sk)) && CommitsToDerived(setting, st, i, sk)
  {
    var sl := setting.SlotOf(st, i);
    UnfoldServed(sl, sk, st.receivers[i].padCommitment, q);
    TimesUnits(sl.Pad(SkBits(sk)));
    if Served(sl, sk, st.receivers[i].padCommitment) {
      ServedDerives(setting, st, i, sk);
    }
    if DerivePad(setting.curve, st.h1, st.h2, st.beta, sk, st.receivers[i].pkj).Ok? {
      SlotPadIsDerived(setting, st, i, sk);
    }
  }
}
