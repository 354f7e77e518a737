// The batched dealer circuit and its size: paper.rs.
module BatchedCircuit {
  import opened Wrappers
  import opened Core
  import opened Modular
  import opened Bits
  import opened Scalars
  import opened LinearCombinations
  import opened ConstraintSystems
  import opened BitGadgets
  import opened Chords
  import opened ChordGadget
  import opened ReceiverSlot

  datatype BatchedReceiver = BatchedReceiver(pkj: Log, padCommitment: Log)

  // A public statement; h1 and h2 are the message's points.
  datatype BatchedStatement = BatchedStatement(pk1: Log, h1: Log, h2: Log, beta: Scalar, receivers: seq<BatchedReceiver>)

  datatype BatchedWitness = BatchedWitness(sk: Scalar, skBits: seq<Option<Scalar>>, pk1: ChordWitness, receivers: seq<HiddenReceiverWitness>)

  // The inner curve and the hash giving every base its correction generator.
  datatype Setting = Setting(curve: Curve, correction: Log -> Log) {
    function ChordOf(base: Log): Chord {
      Chord(curve, base, correction(base), K_BITS)
    }

    function SlotOf(st: BatchedStatement, i: nat): Slot
      requires i < |st.receivers|
    {
      Slot(ChordOf(st.receivers[i].pkj), ChordOf(st.h1), ChordOf(st.h2), ChordOf(1), st.beta)
    }

    ghost predicate Valid() {
      curve.Lawful() && curve.order < q < 2 * curve.order && K_BITS + 1 < q < Pow2(K_BITS) && ChordOf(1).Tabulable()
    }
  }

  // ----- what satisfying wires say -----

  // The dealer key, and every pad commitment, are the ones the secret's bits determine.
  predicate RelationHolds(w: Wires, setting: Setting, st: BatchedStatement, n: nat, skBits: seq<Variable>)
    requires |skBits| == K_BITS + 1 && n <= |st.receivers|
  {
    var sk := ReadBits(w, skBits);
    && Boolean(w, skBits) && Number(sk) < setting.curve.order
    && (setting.ChordOf(1).RegularTo(sk, WINDOWS) ==> setting.curve.at(st.pk1) == setting.curve.at(Times(Number(sk), 1)))
    && forall i :: 0 <= i < n ==> SlotBinds(w, setting.SlotOf(st, i), skBits, st.receivers[i].padCommitment)
  }

  predicate HonestDealer(setting: Setting, st: BatchedStatement, wit: Option<BatchedWitness>) {
    && HonestSecret(setting.curve.order, wit)
    && HonestChord(setting.ChordOf(1), BitsOf(wit.value.sk, K_BITS + 1), Some(setting.curve.at(st.pk1)), Some(wit.value.pk1))
  }

  predicate HonestReceivers(setting: Setting, st: BatchedStatement, wit: Option<BatchedWitness>) {
    && wit.Some? && |wit.value.receivers| == |st.receivers|
    && forall i :: 0 <= i < |st.receivers| ==>
      HonestSlot(setting.SlotOf(st, i), BitsOf(wit.value.sk, K_BITS + 1), st.receivers[i].padCommitment, Some(wit.value.receivers[i]))
  }

  predicate WellShaped(st: BatchedStatement, wit: Option<BatchedWitness>) {
    wit.Some? ==>
      && |wit.value.skBits| == K_BITS + 1 && AllAssigned(wit.value.skBits) && WitnessFits(Some(wit.value.pk1), WINDOWS)
      && |wit.value.receivers| == |st.receivers|
      && forall i :: 0 <= i < |st.receivers| ==> Shaped(Some(wit.value.receivers[i]))
  }

  // ----- gate counts -----

  // Multipliers of n receiver slots behind one pending wire.
  function SlotsGates(n: nat, perSlot: nat): nat {
    if n == 0 then 0 else SlotsGates(n - 1, perSlot) + perSlot + if Even(n) then 1 else 0
  }

  predicate Even(n: nat) {
    n % 2 == 0
  }

  lemma Alternates(n: nat)
    ensures Even(n + 1) <==> !Even(n)
  {
  }

  // The shared prefix: the secret's wire, its bits and products, and g^sk.
  function SharedGates(): nat {
    1 + 2 * (K_BITS + 1) + WINDOWS + ChordGates(WINDOWS)
  }

  // ----- the circuit -----

  // The dealer secret's wire, its canonical bits and their window products.
  method BuildSecret(cs: ConstraintSystem, order: nat, wit: Option<BatchedWitness>) returns (r: Result<(seq<Variable>, seq<Variable>), R1CSError>)
    requires order < q < Pow2(K_BITS) && cs.State().WellFormed() && cs.pendingMultiplier == None
    requires wit.Some? ==> |wit.value.skBits| == K_BITS + 1 && AllAssigned(wit.value.skBits)
    modifies cs
    ensures r.Err? <==> cs.proving && wit.None?
    ensures cs.State().WellFormed() && Grown(old(cs.State()), cs.State())
    ensures r.Ok? ==>
      && |r.value.0| == K_BITS + 1 && |r.value.1| == WINDOWS && AllKnown(cs.State(), r.value.0) && AllKnown(cs.State(), r.value.1)
      && cs.gates == old(cs.gates) + 1 + 2 * (K_BITS + 1) + WINDOWS && cs.pendingMultiplier.Some?
      && (old(cs.State()).Honest() && HonestSecret(order, wit) ==>
          cs.State().Honest() && ReadBits(cs.State().Own(), r.value.0) == BitsOf(wit.value.sk, K_BITS + 1))
      && forall w: Wires :: w.Satisfies(cs.constraints) ==>
        w.Satisfies(old(cs.constraints)) && Inputs(w, r.value.0, r.value.1) && Number(ReadBits(w, r.value.0)) < order
  {
    var sk := cs.Allocate(if wit.Some? then Some(wit.value.sk) else None);
    if sk.Err? {
      return Err(sk.error);
    }
    if HonestSecret(order, wit) {
      CanonicalBitsExist(wit.value.sk, order);
    }
    r := DecomposeWithProducts(cs, sk.value, if wit.Some? then wit.value.skBits else NoBits(), order);
    if r.Ok? && cs.proving && HonestSecret(order, wit) {
      CarriedBits(cs.State(), r.value.0, BitsOf(wit.value.sk, K_BITS + 1));
    }
  }

  predicate HonestSecret(order: nat, wit: Option<BatchedWitness>) {
    wit.Some? && wit.value.sk < order && wit.value.skBits == BitOptions(BitsOf(wit.value.sk, K_BITS + 1))
  }

  // The part of the circuit about the dealer's own key.
  method BuildShared(cs: ConstraintSystem, setting: Setting, st: BatchedStatement, precompG: ChordPrecomp, wit: Option<BatchedWitness>)
    returns (r: Result<(seq<Variable>, seq<Variable>), R1CSError>)
    requires setting.Valid() && precompG == Tables(setting.ChordOf(1)) && WellShaped(st, wit)
    requires cs.State().WellFormed() && cs.pendingMultiplier == None
    modifies cs
    ensures r.Err? <==> (cs.proving && wit.None?) || setting.curve.IsIdentity(st.pk1)
    ensures cs.State().WellFormed() && Grown(old(cs.State()), cs.State())
    ensures r.Ok? ==>
      && |r.value.0| == K_BITS + 1 && |r.value.1| == WINDOWS && AllKnown(cs.State(), r.value.0) && AllKnown(cs.State(), r.value.1)
      && cs.gates == old(cs.gates) + SharedGates() && cs.pendingMultiplier.Some?
      && (old(cs.State()).Honest() && HonestDealer(setting, st, wit) ==>
          cs.State().Honest() && ReadBits(cs.State().Own(), r.value.0) == BitsOf(wit.value.sk, K_BITS + 1))
      && forall w: Wires :: w.Satisfies(cs.constraints) ==>
        w.Satisfies(old(cs.constraints)) && Inputs(w, r.value.0, r.value.1) && RelationHolds(w, setting, st, 0, r.value.0)
  {
    ghost var s := cs.State();
    var bits := BuildSecret(cs, setting.curve.order, wit);
    if bits.Err? {
      return Err(bits.error);
    }
    var (skBits, skProducts) := bits.value;
    if setting.curve.IsIdentity(st.pk1) {
      return Err(VerificationError);
    }
    ghost var t := cs.State();
    var key := ChordExponentiateR1csWithResult(cs, skBits, precompG, skProducts, Some(setting.curve.at(st.pk1)), if wit.Some? then Some(wit.value.pk1) else None, setting.ChordOf(1));
    if key.Err? {
      return Err(key.error);
    }
    GrownBits(t, cs.State(), skBits);
    r := Ok((skBits, skProducts));
  }

  // The prover's wires hold the secret of its witness.
  predicate Holds(s: System, skBits: seq<Variable>, wit: Option<BatchedWitness>) {
    wit.Some? && ReadBits(s.Own(), skBits) == BitsOf(wit.value.sk, K_BITS + 1)
  }

  // The slot of receiver i.
  method BuildReceiver(cs: ConstraintSystem, setting: Setting, st: BatchedStatement, i: nat, skBits: seq<Variable>, skProducts: seq<Variable>, tables: seq<ChordPrecomp>, precompH1: ChordPrecomp, precompH2: ChordPrecomp, precompG: ChordPrecomp, wit: Option<BatchedWitness>)
    returns (r: Result<(), R1CSError>)
    requires setting.Valid() && TablesFor(setting, st, tables) && WellShaped(st, wit) && i < |st.receivers|
    requires precompG == Tables(setting.ChordOf(1)) && precompH1 == Tables(setting.ChordOf(st.h1)) && precompH2 == Tables(setting.ChordOf(st.h2))
    requires |skBits| == K_BITS + 1 && |skProducts| == WINDOWS
    requires cs.State().WellFormed() && AllKnown(cs.State(), skBits) && AllKnown(cs.State(), skProducts)
    requires forall w: Wires :: w.Satisfies(cs.constraints) ==> Inputs(w, skBits, skProducts) && RelationHolds(w, setting, st, i, skBits)
    modifies cs
    ensures r.Err? <==> setting.curve.IsIdentity(st.receivers[i].padCommitment) || (cs.proving && wit.None?)
    ensures cs.State().WellFormed() && Grown(old(cs.State()), cs.State())
    ensures r.Ok? ==>
      && cs.gates == old(cs.gates) + SlotGates(q - setting.curve.order) + (if old(cs.pendingMultiplier).None? then 1 else 0)
      && (cs.pendingMultiplier.None? <==> old(cs.pendingMultiplier).Some?)
      && (old(cs.State()).Honest() && HonestReceivers(setting, st, wit) && Holds(old(cs.State()), skBits, wit) ==> cs.State().Honest())
      && forall w: Wires :: w.Satisfies(cs.constraints) ==> w.Satisfies(old(cs.constraints)) && RelationHolds(w, setting, st, i + 1, skBits)
  {
    ghost var s := cs.State();
    ghost var sl := setting.SlotOf(st, i);
    var slotWitness := if wit.Some? then Some(wit.value.receivers[i]) else None;
    r := BuildHiddenReceiverSlot(cs, st.receivers[i].padCommitment, skBits, skProducts, tables[i], precompH1, precompH2, precompG, setting.curve, st.beta, slotWitness, sl);
    if r.Ok? {
      forall w: Wires | w.Satisfies(cs.constraints)
        ensures RelationHolds(w, setting, st, i + 1, skBits)
      {
        assert w.Satisfies(s.constraints);
      }
    }
  }

  // One slot per receiver behind the shared part.
  method BuildReceivers(cs: ConstraintSystem, setting: Setting, st: BatchedStatement, skBits: seq<Variable>, skProducts: seq<Variable>, tables: seq<ChordPrecomp>, precompH1: ChordPrecomp, precompH2: ChordPrecomp, precompG: ChordPrecomp, wit: Option<BatchedWitness>)
    returns (r: Result<(), R1CSError>)
    requires setting.Valid() && TablesFor(setting, st, tables) && WellShaped(st, wit)
    requires precompG == Tables(setting.ChordOf(1)) && precompH1 == Tables(setting.ChordOf(st.h1)) && precompH2 == Tables(setting.ChordOf(st.h2))
    requires |skBits| == K_BITS + 1 && |skProducts| == WINDOWS
    requires cs.State().WellFormed() && AllKnown(cs.State(), skBits) && AllKnown(cs.State(), skProducts) && cs.pendingMultiplier.Some?
    requires forall w: Wires :: w.Satisfies(cs.constraints) ==> Inputs(w, skBits, skProducts) && RelationHolds(w, setting, st, 0, skBits)
    modifies cs
    ensures r.Err? <==> |st.receivers| > 0 && ((cs.proving && wit.None?) || exists i :: 0 <= i < |st.receivers| && setting.curve.IsIdentity(st.receivers[i].padCommitment))
    ensures cs.State().WellFormed() && Grown(old(cs.State()), cs.State())
    ensures r.Ok? ==>
      && cs.gates == old(cs.gates) + SlotsGates(|st.receivers|, SlotGates(q - setting.curve.order))
      && (old(cs.State()).Honest() && HonestReceivers(setting, st, wit) && Holds(old(cs.State()), skBits, wit) ==> cs.State().Honest())
      && forall w: Wires :: w.Satisfies(cs.constraints) ==>
        w.Satisfies(old(cs.constraints)) && RelationHolds(w, setting, st, |st.receivers|, skBits)
  {
    ghost var s := cs.State();
    ghost var perSlot := SlotGates(q - setting.curve.order);
    ghost var honest := s.Honest() && HonestReceivers(setting, st, wit) && Holds(s, skBits, wit);
    for i := 0 to |st.receivers|
      invariant cs.State().WellFormed() && Grown(s, cs.State())
      invariant cs.gates == s.gates + SlotsGates(i, perSlot) && (cs.pendingMultiplier.Some? <==> Even(i))
      invariant i > 0 ==> !(cs.proving && wit.None?)
      invariant forall k :: 0 <= k < i ==> !setting.curve.IsIdentity(st.receivers[k].padCommitment)
      invariant honest ==> cs.State().Honest()
      invariant forall w: Wires :: w.Satisfies(cs.constraints) ==> w.Satisfies(s.constraints) && RelationHolds(w, setting, st, i, skBits)
    {
      GrownBits(s, cs.State(), skBits);
      Alternates(i);
      var slot := BuildReceiver(cs, setting, st, i, skBits, skProducts, tables, precompH1, precompH2, precompG, wit);
      if slot.Err? {
        return Err(slot.error);
      }
    }
    r := Ok(());
  }

  // The tables of every receiver's key and of the shared bases.
  ghost predicate TablesFor(setting: Setting, st: BatchedStatement, tables: seq<ChordPrecomp>) {
    && |tables| == |st.receivers|
    && setting.ChordOf(st.h1).Tabulable() && setting.ChordOf(st.h2).Tabulable()
    && forall i :: 0 <= i < |st.receivers| ==>
      setting.ChordOf(st.receivers[i].pkj).Tabulable() && tables[i] == Tables(setting.ChordOf(st.receivers[i].pkj))
  }

  // Tables of the receivers' keys and of the message's points, or the first failure.
  method PrecomputeAll(setting: Setting, st: BatchedStatement) returns (r: Result<(seq<ChordPrecomp>, ChordPrecomp, ChordPrecomp), Error>)
    ensures r.Ok? ==> TablesFor(setting, st, r.value.0) && r.value.1 == Tables(setting.ChordOf(st.h1)) && r.value.2 == Tables(setting.ChordOf(st.h2))
    ensures r.Ok? <==>
      && setting.ChordOf(st.h1).Tabulable() && setting.ChordOf(st.h2).Tabulable()
      && forall i :: 0 <= i < |st.receivers| ==> setting.ChordOf(st.receivers[i].pkj).Tabulable()
  {
    var tables := [];
    for i := 0 to |st.receivers|
      invariant |tables| == i
      invariant forall k :: 0 <= k < i ==>
        setting.ChordOf(st.receivers[k].pkj).Tabulable() && tables[k] == Tables(setting.ChordOf(st.receivers[k].pkj))
    {
      var table := PrecomputeChord(setting.curve, st.receivers[i].pkj, setting.correction(st.receivers[i].pkj), K_BITS);
      if table.Err? {
        return Err(table.error);
      }
      tables := tables + [table.value];
    }
    var h1 := PrecomputeChord(setting.curve, st.h1, setting.correction(st.h1), K_BITS);
    if h1.Err? {
      return Err(h1.error);
    }
    var h2 := PrecomputeChord(setting.curve, st.h2, setting.correction(st.h2), K_BITS);
    if h2.Err? {
      return Err(h2.error);
    }
    r := Ok((tables, h1.value, h2.value));
  }

  // Public points that the tables and the bindings accept.
  predicate Buildable(setting: Setting, st: BatchedStatement) {
    && !setting.curve.IsIdentity(st.pk1) && setting.ChordOf(st.h1).Tabulable() && setting.ChordOf(st.h2).Tabulable()
    && forall i :: 0 <= i < |st.receivers| ==>
      setting.ChordOf(st.receivers[i].pkj).Tabulable() && !setting.curve.IsIdentity(st.receivers[i].padCommitment)
  }

  // The circuit over a fresh constraint system, the prover's or the verifier's.
  method BuildBatched(cs: ConstraintSystem, setting: Setting, st: BatchedStatement, precompG: ChordPrecomp, wit: Option<BatchedWitness>)
    returns (r: Result<seq<Variable>, Error>)
    requires setting.Valid() && precompG == Tables(setting.ChordOf(1)) && WellShaped(st, wit) && (cs.proving ==> wit.Some?)
    requires cs.State() == System(cs.proving, 0, None, [], [], []) && cs.State().WellFormed() && (cs.proving ==> cs.State().Honest())
    modifies cs
    ensures r.Err? ==> r.error == ProofVerificationFailed
    ensures r.Ok? <==> Buildable(setting, st)
    ensures r.Ok? ==>
      && |r.value| == K_BITS + 1
      && cs.gates == SharedGates() + SlotsGates(|st.receivers|, SlotGates(q - setting.curve.order))
      && (q - setting.curve.order == SECP256K1_P_MINUS_Q ==> cs.gates == 1035 + 3052 * |st.receivers| - (|st.receivers| + 1) / 2)
      && (cs.proving && HonestDealer(setting, st, wit) && HonestReceivers(setting, st, wit) ==> cs.State().Honest())
      && forall w: Wires :: w.Satisfies(cs.constraints) ==> RelationHolds(w, setting, st, |st.receivers|, r.value)
  {
    var tables := PrecomputeAll(setting, st);
    if tables.Err? {
      return Err(ProofVerificationFailed);
    }
    var (keys, h1, h2) := tables.value;
    var shared := BuildShared(cs, setting, st, precompG, wit);
    if shared.Err? {
      return Err(ProofVerificationFailed);
    }
    var (skBits, skProducts) := shared.value;
    var slots := BuildReceivers(cs, setting, st, skBits, skProducts, keys, h1, h2, precompG, wit);
    if slots.Err? {
      return Err(ProofVerificationFailed);
    }
    if q - setting.curve.order == SECP256K1_P_MINUS_Q {
      SlotGatesAre();
      SlotsClosedForm(|st.receivers|);
    }
    r := Ok(skBits);
  }

  // The verifier's circuit. Wires that satisfy it carry a secret below the order, the
  // dealer key it gives, and for every receiver the commitment to the derived pad.
  method BuildBatchedVerifier(setting: Setting, st: BatchedStatement, precompG: ChordPrecomp) returns (r: Result<ConstraintSystem, Error>, ghost skBits: seq<Variable>)
    requires setting.Valid() && precompG == Tables(setting.ChordOf(1))
    ensures r.Ok? <==> Buildable(setting, st)
    ensures r.Ok? ==>
      && |skBits| == K_BITS + 1
      && (q - setting.curve.order == SECP256K1_P_MINUS_Q ==> r.value.gates == 1035 + 3052 * |st.receivers| - (|st.receivers| + 1) / 2)
      && forall w: Wires :: w.Satisfies(r.value.constraints) ==> RelationHolds(w, setting, st, |st.receivers|, skBits)
  {
    skBits := [];
    var cs := new ConstraintSystem(false);
    var built := BuildBatched(cs, setting, st, precompG, None);
    if built.Err? {
      return Err(built.error), [];
    }
    r, skBits := Ok(cs), built.value;
  }

  // ----- the prover's witness -----

  function SkBits(sk: nat): (r: seq<bool>)
    ensures |r| == K_BITS + 1
  {
    BitsOf(sk, K_BITS + 1)
  }

  lemma SkNumber(sk: nat)
    requires sk < Pow2(K_BITS)
    ensures Number(SkBits(sk)) == sk
  {
    Pow2Monotone(K_BITS, K_BITS + 1);
    NumberOfBits(sk, K_BITS + 1);
  }

  // A receiver the dealer's secret serves: its commitment is to the derived pad, and
  // no addition on the way is exceptional.
  predicate Serves(sl: Slot, sk: nat, commitment: Log)
    requires sl.pk.lambda == sl.h1.lambda == sl.h2.lambda == sl.g.lambda == K_BITS
  {
    && sl.Regular(SkBits(sk)) && !sl.g.curve.IsIdentity(Times(sk, sl.pk.base))
    && SamePoint(sl.g.curve.order, Times(sl.Pad(SkBits(sk)), sl.g.base), commitment)
  }

  predicate FoldedServed(sl: Slot, sk: nat, commitment: Log, n: nat)
    requires sl.pk.lambda == sl.h1.lambda == sl.h2.lambda == sl.g.lambda == K_BITS
    decreases n
  {
    if n == 0 then Serves(sl, sk, commitment) else FoldedServed(sl, sk, commitment, n - 1)
  }

  predicate Served(sl: Slot, sk: nat, commitment: Log)
    requires sl.pk.lambda == sl.h1.lambda == sl.h2.lambda == sl.g.lambda == K_BITS
  {
    FoldedServed(sl, sk, commitment, q)
  }

  lemma UnfoldServed(sl: Slot, sk: nat, commitment: Log, n: nat)
    requires sl.pk.lambda == sl.h1.lambda == sl.h2.lambda == sl.g.lambda == K_BITS
    ensures FoldedServed(sl, sk, commitment, n) <==> Serves(sl, sk, commitment)
    decreases n
  {
  }

  predicate SamePoint(order: Prime, j: Log, k: Log) {
    assert IsPrime(order);
    Cong(order, j, k)
  }

  // T1, T2 and r for the bits of k, with the chord witnesses of T1 and T2.
  method ComputeExponents(curve: Curve, beta: Scalar, kBits: seq<bool>, precompH1: ChordPrecomp, precompH2: ChordPrecomp, ghost sl: Slot)
    returns (res: Result<(ChordWitness, ChordWitness, Scalar), Error>)
    requires sl.Valid() && sl.g.curve == curve && sl.beta == beta && |kBits| == K_BITS + 1
    requires precompH1 == Tables(sl.h1) && precompH2 == Tables(sl.h2)
    ensures res.Ok? <==> sl.h1.RegularTo(kBits, WINDOWS) && sl.h2.RegularTo(kBits, WINDOWS)
    ensures res.Err? ==> res.error == ProofVerificationFailed
    ensures res.Ok? ==>
      && res.value.0 == WitnessOf(sl.h1, kBits) && res.value.1 == WitnessOf(sl.h2, kBits)
      && res.value.2 == Add(Mul(beta, curve.at(Times(Number(kBits), sl.h1.base)).x), curve.at(Times(Number(kBits), sl.h2.base)).x)
  {
    if sl.h1.RegularTo(kBits, WINDOWS) {
      RegularIsFinite(sl.h1, kBits, WINDOWS);
    }
    if sl.h2.RegularTo(kBits, WINDOWS) {
      RegularIsFinite(sl.h2, kBits, WINDOWS);
    }
    var t1 := ChordComputeWitnessPrecomputed(curve, kBits, precompH1, sl.h1);
    if t1.Err? {
      return Err(t1.error);
    }
    var t2 := ChordComputeWitnessPrecomputed(curve, kBits, precompH2, sl.h2);
    if t2.Err? {
      return Err(t2.error);
    }
    LastCheckpoint(sl.h1, kBits);
    LastCheckpoint(sl.h2, kBits);
    EndPoint(sl.h1, kBits);
    EndPoint(sl.h2, kBits);
    var x1 := t1.value.checkpointCoords[|t1.value.checkpointCoords| - 1].x;
    var x2 := t2.value.checkpointCoords[|t2.value.checkpointCoords| - 1].x;
    res := Ok((t1.value, t2.value, Add(Mul(beta, x1), x2)));
  }

  // The last checkpoint is the result.
  lemma LastCheckpoint(c: Chord, bits: seq<bool>)
    requires c.lambda > 1 && |bits| == c.lambda + 1
    ensures
      var coords := WitnessOf(c, bits).checkpointCoords;
      |coords| > 0 && coords[|coords| - 1] == c.curve.at(c.Point(bits, c.lambda / 2))
  {
    WitnessIs(c, bits);
  }

  method ComputeHiddenReceiverWitness(curve: Curve, sk: nat, rec: BatchedReceiver, beta: Scalar, precompPkj: ChordPrecomp, precompH1: ChordPrecomp, precompH2: ChordPrecomp, precompG: ChordPrecomp, ghost sl: Slot)
    returns (res: Result<HiddenReceiverWitness, Error>)
    requires sl.Valid() && sl.g.curve == curve && sl.beta == beta && sl.pk.base == rec.pkj && sl.g.base == 1 && sk < curve.order
    requires precompPkj == Tables(sl.pk) && precompH1 == Tables(sl.h1) && precompH2 == Tables(sl.h2) && precompG == Tables(sl.g)
    ensures res.Err? ==> res.error == ProofVerificationFailed
    ensures res.Ok? <==> Served(sl, sk, rec.padCommitment)
    ensures res.Ok? ==> HonestSlot(sl, SkBits(sk), rec.padCommitment, Some(res.value)) && Shaped(Some(res.value))
  {
    SkNumber(sk);
    UnfoldServed(sl, sk, rec.padCommitment, q);
    var sj := Times(sk, rec.pkj);
    if curve.IsIdentity(sj) {
      return Err(ProofVerificationFailed);
    }
    var k := curve.at(sj).x;
    var kBits := BitsOf(k, K_BITS + 1);
    SlotNumbers(sl, SkBits(sk));
    var exponents := ComputeExponents(curve, beta, kBits, precompH1, precompH2, sl);
    if exponents.Err? {
      return Err(exponents.error);
    }
    var (t1, t2, rVal) := exponents.value;
    var pad := rVal % curve.order;
    assert rVal == sl.R(SkBits(sk)) && pad == sl.Pad(SkBits(sk));
    ResidueBelowTwice(rVal, curve.order);
    var reduceQ := if pad == rVal then 0 else 1;
    if !SamePoint(curve.order, Times(pad, 1), rec.padCommitment) {
      return Err(ProofVerificationFailed);
    }
    var padBits := BitsOf(pad, K_BITS + 1);
    if sl.pk.RegularTo(SkBits(sk), WINDOWS) {
      RegularIsFinite(sl.pk, SkBits(sk), WINDOWS);
    }
    if sl.g.RegularTo(padBits, WINDOWS) {
      RegularIsFinite(sl.g, padBits, WINDOWS);
    }
    var skPkj := ChordComputeWitnessPrecomputed(curve, SkBits(sk), precompPkj, sl.pk);
    if skPkj.Err? {
      return Err(skPkj.error);
    }
    var padCommitment := ChordComputeWitnessPrecomputed(curve, padBits, precompG, sl.g);
    if padCommitment.Err? {
      return Err(padCommitment.error);
    }
    WitnessOfFits(sl.pk, SkBits(sk));
    WitnessOfFits(sl.h1, kBits);
    WitnessOfFits(sl.h2, kBits);
    WitnessOfFits(sl.g, padBits);
    UnfoldHonest(sl, SkBits(sk), rec.padCommitment,
      Some(HiddenReceiverWitness(skPkj.value, BitOptions(kBits), t1, t2, reduceQ, pad, BitOptions(padBits), padCommitment.value)), q);
    res := Ok(HiddenReceiverWitness(skPkj.value, BitOptions(kBits), t1, t2, reduceQ, pad, BitOptions(padBits), padCommitment.value));
  }

  // A statement the dealer with this secret can prove.
  predicate Provable(setting: Setting, st: BatchedStatement, sk: nat) {
    && sk < setting.curve.order && SamePoint(setting.curve.order, sk, st.pk1)
    && setting.ChordOf(1).RegularTo(SkBits(sk), WINDOWS) && Buildable(setting, st) && AllServed(setting, st, sk)
  }

  predicate AllServed(setting: Setting, st: BatchedStatement, sk: nat) {
    forall i :: 0 <= i < |st.receivers| ==> Served(setting.SlotOf(st, i), sk, st.receivers[i].padCommitment)
  }

  // The prover's circuit, over wires that satisfy it.
  method ProveBatchedR1cs(setting: Setting, st: BatchedStatement, precompG: ChordPrecomp, sk: nat) returns (r: Result<ConstraintSystem, Error>)
    requires setting.Valid() && precompG == Tables(setting.ChordOf(1)) && sk < setting.curve.order
    ensures r.Ok? <==> Provable(setting, st, sk)
    ensures r.Ok? ==> r.value.State().Honest()
  {
    TimesUnits(sk);
    if !SamePoint(setting.curve.order, sk, st.pk1) {
      return Err(ProofVerificationFailed);
    }
    var tables := PrecomputeAll(setting, st);
    if tables.Err? {
      return Err(ProofVerificationFailed);
    }
    var (keys, h1, h2) := tables.value;
    if setting.ChordOf(1).RegularTo(SkBits(sk), WINDOWS) {
      RegularIsFinite(setting.ChordOf(1), SkBits(sk), WINDOWS);
    }
    var pk1 := ChordComputeWitnessPrecomputed(setting.curve, SkBits(sk), precompG, setting.ChordOf(1));
    if pk1.Err? {
      return Err(pk1.error);
    }
    var receivers := ComputeReceivers(setting, st, sk, keys, h1, h2, precompG);
    if receivers.Err? {
      return Err(receivers.error);
    }
    var wit := Some(BatchedWitness(sk, BitOptions(SkBits(sk)), pk1.value, receivers.value));
    HonestKey(setting, st, sk, wit);
    var cs := new ConstraintSystem(true);
    var built := BuildBatched(cs, setting, st, precompG, wit);
    if built.Err? {
      return Err(built.error);
    }
    r := Ok(cs);
  }

  lemma HonestKey(setting: Setting, st: BatchedStatement, sk: nat, wit: Option<BatchedWitness>)
    requires setting.Valid() && sk < setting.curve.order && SamePoint(setting.curve.order, sk, st.pk1)
    requires setting.ChordOf(1).RegularTo(SkBits(sk), WINDOWS)
    requires wit.Some? && wit.value.sk == sk && wit.value.skBits == BitOptions(SkBits(sk)) && wit.value.pk1 == WitnessOf(setting.ChordOf(1), SkBits(sk))
    ensures HonestDealer(setting, st, wit) && WitnessFits(Some(wit.value.pk1), WINDOWS)
  {
    SkNumber(sk);
    TimesUnits(sk);
    WitnessOfFits(setting.ChordOf(1), SkBits(sk));
    assert Cong(setting.curve.order, sk, st.pk1);
  }

  // Every receiver's witness.
  method ComputeReceivers(setting: Setting, st: BatchedStatement, sk: nat, keys: seq<ChordPrecomp>, h1: ChordPrecomp, h2: ChordPrecomp, precompG: ChordPrecomp)
    returns (r: Result<seq<HiddenReceiverWitness>, Error>)
    requires setting.Valid() && TablesFor(setting, st, keys) && sk < setting.curve.order
    requires precompG == Tables(setting.ChordOf(1)) && h1 == Tables(setting.ChordOf(st.h1)) && h2 == Tables(setting.ChordOf(st.h2))
    ensures r.Ok? <==> AllServed(setting, st, sk)
    ensures r.Ok? ==> |r.value| == |st.receivers| && forall i :: 0 <= i < |st.receivers| ==>
      HonestSlot(setting.SlotOf(st, i), SkBits(sk), st.receivers[i].padCommitment, Some(r.value[i])) && Shaped(Some(r.value[i]))
  {
    var all := [];
    for i := 0 to |st.receivers|
      invariant |all| == i
      invariant forall k :: 0 <= k < i ==> Served(setting.SlotOf(st, k), sk, st.receivers[k].padCommitment)
      invariant forall k :: 0 <= k < i ==>
        HonestSlot(setting.SlotOf(st, k), SkBits(sk), st.receivers[k].padCommitment, Some(all[k])) && Shaped(Some(all[k]))
    {
      var wit := ComputeHiddenReceiverWitness(setting.curve, sk, st.receivers[i], st.beta, keys[i], h1, h2, precompG, setting.SlotOf(st, i));
      if wit.Err? {
        return Err(wit.error);
      }
      all := all + [wit.value];
    }
    r := Ok(all);
  }

  // ----- the closed form -----

  // p - q of Secp256k1.
  const SECP256K1_P_MINUS_Q: nat := 0x1_45512319_50b75fc4_402da172_2fc9baee

  const BATCHED_SHARED_MULTIPLIERS: nat := 1035
  const BATCHED_RECEIVER_MULTIPLIERS: nat := 3052
  const USIZE_MAX: nat := 0xffff_ffff_ffff_ffff

  // The count from the public shape, with every step checked for overflow.
  function BatchedMultiplierCount(threshold: nat, receiverCount: nat): (r: Result<nat, Error>)
    ensures r.Ok? <==>
      && threshold > 0 && receiverCount > 0 && receiverCount + 1 >= threshold
      && BATCHED_SHARED_MULTIPLIERS + BATCHED_RECEIVER_MULTIPLIERS * receiverCount <= USIZE_MAX
  {
    if threshold == 0 || receiverCount == 0 || receiverCount < (if threshold > 0 then threshold - 1 else 0) then Err(ProofVerificationFailed)
    else if receiverCount * BATCHED_RECEIVER_MULTIPLIERS > USIZE_MAX || receiverCount + 1 > USIZE_MAX then Err(ProofVerificationFailed)
    else
      var sharedAllocations := (receiverCount + 1) / 2;
      if BATCHED_SHARED_MULTIPLIERS + receiverCount * BATCHED_RECEIVER_MULTIPLIERS > USIZE_MAX then Err(ProofVerificationFailed)
      else Ok(BATCHED_SHARED_MULTIPLIERS + receiverCount * BATCHED_RECEIVER_MULTIPLIERS - sharedAllocations)
  }

  lemma {:induction false} SlotsClosedForm(n: nat)
    ensures SlotsGates(n, 3051) == 3051 * n + n / 2
  {
    if n > 0 {
      SlotsClosedForm(n - 1);
    }
  }

  lemma {:induction false} ScanZeroBits(bound: nat, n: nat)
    ensures ZeroBits(bound, n) == n - OnesBelow(bound, n)
  {
    if n > 0 {
      ScanZeroBits(bound, n - 1);
    }
  }

  // Set bits among the low n.
  function OnesBelow(bound: nat, n: nat): (r: nat)
    ensures r <= n
  {
    if n == 0 then 0 else OnesBelow(bound, n - 1) + Bit(bound, n - 1)
  }

  // The size of the circuit the construction builds is the closed form.
  lemma GateCountClosedForm(threshold: nat, n: nat, bound: nat)
    requires bound == SECP256K1_P_MINUS_Q && BatchedMultiplierCount(threshold, n).Ok?
    ensures SharedGates() + SlotsGates(n, SlotGates(bound)) == BatchedMultiplierCount(threshold, n).value
  {
    SlotGatesAre();
    SlotsClosedForm(n);
  }

  lemma SlotGatesAre()
    ensures SlotGates(SECP256K1_P_MINUS_Q) == 3051
    ensures SharedGates() == 1034 + 1
  {
    UnfoldBoundGates(SECP256K1_P_MINUS_Q, K_BITS + 1, q);
    BoundBits();
  }

  // The same scans from the low end, halving the number.
  function CountZeros(x: nat, n: nat): nat {
    if n == 0 then 0 else 1 - x % 2 + CountZeros(x / 2, n - 1)
  }

  function Halved(x: nat, k: nat): nat {
    if k == 0 then x else Halved(x / 2, k - 1)
  }

  lemma {:induction false} HalvedIsShr(x: nat, k: nat)
    ensures Halved(x, k) == Shr(x, k)
  {
    if k > 0 {
      HalvedIsShr(x / 2, k - 1);
      ShrFromHalf(x, k - 1);
    }
  }

  lemma {:induction false} ZeroBitsFromHalf(x: nat, n: nat)
    ensures ZeroBits(x, n + 1) == 1 - x % 2 + ZeroBits(x / 2, n)
  {
    if n > 0 {
      ZeroBitsFromHalf(x, n - 1);
      ShrFromHalf(x, n - 1);
    }
  }

  lemma {:induction false} CountZerosIsZeroBits(x: nat, n: nat)
    ensures CountZeros(x, n) == ZeroBits(x, n)
  {
    if n > 0 {
      CountZerosIsZeroBits(x / 2, n - 1);
      ZeroBitsFromHalf(x, n - 1);
    }
  }

  lemma PushBit(y: nat, b: nat, n: nat)
    requires b < 2
    ensures CountZeros(2 * y + b, n + 1) == 1 - b + CountZeros(y, n)
    ensures Halved(2 * y + b, n + 1) == Halved(y, n)
    ensures n > 0 ==> Halved(2 * y + b, n) == Halved(y, n - 1)
  {
  }

  // v has n bits under a leading one, z of them zeros; folded.
  predicate Scanned(v: nat, n: nat, z: nat, depth: nat)
    decreases depth
  {
    if depth == 0 then n > 0 && CountZeros(v, n) == z && Halved(v, n - 1) == 1 else Scanned(v, n, z, depth - 1)
  }

  lemma UnfoldScanned(v: nat, n: nat, z: nat, depth: nat)
    ensures Scanned(v, n, z, depth) <==> n > 0 && CountZeros(v, n) == z && Halved(v, n - 1) == 1
    decreases depth
  {
  }

  // Four more bits below v.
  lemma PushNibble(v: nat, n: nat, z: nat, b3: nat, b2: nat, b1: nat, b0: nat) returns (v': nat, n': nat, z': nat)
    requires b3 < 2 && b2 < 2 && b1 < 2 && b0 < 2 && Scanned(v, n, z, q)
    ensures v' == 16 * v + 8 * b3 + 4 * b2 + 2 * b1 + b0 && n' == n + 4 && z' == z + 4 - b3 - b2 - b1 - b0
    ensures Scanned(v', n', z', q)
  {
    v', n', z' := 16 * v + 8 * b3 + 4 * b2 + 2 * b1 + b0, n + 4, z + 4 - b3 - b2 - b1 - b0;
    UnfoldScanned(v, n, z, q);
    PushBit(v, b3, n);
    PushBit(2 * v + b3, b2, n + 1);
    PushBit(4 * v + 2 * b3 + b2, b1, n + 2);
    PushBit(8 * v + 4 * b3 + 2 * b2 + b1, b0, n + 3);
    UnfoldScanned(v', n', z', q);
  }

  // The bound's digits, from the leading one down.
  lemma HighDigits() returns (v: nat, n: nat, z: nat)
    ensures v == 0x14551231950b75fc4 && n == 65 && z == 35 && Scanned(v, n, z, q)
  {
    v, n, z := 1, 1, 0;
    UnfoldScanned(v, n, z, q);
    v, n, z := PushNibble(v, n, z, 0, 1, 0, 0);
    v, n, z := PushNibble(v, n, z, 0, 1, 0, 1);
    v, n, z := PushNibble(v, n, z, 0, 1, 0, 1);
    v, n, z := PushNibble(v, n, z, 0, 0, 0, 1);
    v, n, z := PushNibble(v, n, z, 0, 0, 1, 0);
    v, n, z := PushNibble(v, n, z, 0, 0, 1, 1);
    v, n, z := PushNibble(v, n, z, 0, 0, 0, 1);
    v, n, z := PushNibble(v, n, z, 1, 0, 0, 1);
    v, n, z := PushNibble(v, n, z, 0, 1, 0, 1);
    v, n, z := PushNibble(v, n, z, 0, 0, 0, 0);
    v, n, z := PushNibble(v, n, z, 1, 0, 1, 1);
    v, n, z := PushNibble(v, n, z, 0, 1, 1, 1);
    v, n, z := PushNibble(v, n, z, 0, 1, 0, 1);
    v, n, z := PushNibble(v, n, z, 1, 1, 1, 1);
    v, n, z := PushNibble(v, n, z, 1, 1, 0, 0);
    v, n, z := PushNibble(v, n, z, 0, 1, 0, 0);
  }

  lemma BoundDigits() returns (v: nat, n: nat, z: nat)
    ensures v == SECP256K1_P_MINUS_Q && n == 129 && z == 67 && Scanned(v, n, z, q)
  {
    v, n, z := HighDigits();
    v, n, z := PushNibble(v, n, z, 0, 1, 0, 0);
    v, n, z := PushNibble(v, n, z, 0, 0, 0, 0);
    v, n, z := PushNibble(v, n, z, 0, 0, 1, 0);
    v, n, z := PushNibble(v, n, z, 1, 1, 0, 1);
    v, n, z := PushNibble(v, n, z, 1, 0, 1, 0);
    v, n, z := PushNibble(v, n, z, 0, 0, 0, 1);
    v, n, z := PushNibble(v, n, z, 0, 1, 1, 1);
    v, n, z := PushNibble(v, n, z, 0, 0, 1, 0);
    v, n, z := PushNibble(v, n, z, 0, 0, 1, 0);
    v, n, z := PushNibble(v, n, z, 1, 1, 1, 1);
    v, n, z := PushNibble(v, n, z, 1, 1, 0, 0);
    v, n, z := PushNibble(v, n, z, 1, 0, 0, 1);
    v, n, z := PushNibble(v, n, z, 1, 0, 1, 1);
    v, n, z := PushNibble(v, n, z, 1, 0, 1, 0);
    v, n, z := PushNibble(v, n, z, 1, 1, 1, 0);
    v, n, z := PushNibble(v, n, z, 1, 1, 1, 0);
  }

  lemma BoundBits()
    ensures LowerBitsStart(SECP256K1_P_MINUS_Q, K_BITS + 1) == 129
    ensures ZeroBits(SECP256K1_P_MINUS_Q, 129) == 67
  {
    var v, n, z := BoundDigits();
    BitsFromScan(v, n, z, K_BITS + 1);
  }

  lemma BitsFromScan(v: nat, n: nat, z: nat, top: nat)
    requires n <= top && Scanned(v, n, z, q)
    ensures LowerBitsStart(v, top) == n && ZeroBits(v, n) == z
  {
    UnfoldScanned(v, n, z, q);
    CountZerosIsZeroBits(v, n);
    HalvedIsShr(v, n - 1);
    assert Shr(v, n) == Shr(v, n - 1) / 2;
    StartIs(v, top, n);
  }

  lemma {:induction false} ShrSplit(x: nat, a: nat, b: nat)
    ensures Shr(x, a + b) == Shr(Shr(x, a), b)
  {
    if b > 0 {
      ShrSplit(x, a, b - 1);
    }
  }

  lemma {:induction false} StartIs(bound: nat, n: nat, l: nat)
    requires 0 < l <= n && Shr(bound, l) == 0 && Bit(bound, l - 1) == 1
    ensures LowerBitsStart(bound, n) == l
  {
    if l < n {
      ShrSplit(bound, l, n - 1 - l);
      ShrOfZero(n - 1 - l);
      StartIs(bound, n - 1, l);
    }
  }

  lemma {:induction false} ShrOfZero(k: nat)
    ensures Shr(0, k) == 0
  {
    if k > 0 {
      ShrOfZero(k - 1);
    }
  }
}
