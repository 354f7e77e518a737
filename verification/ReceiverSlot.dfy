// One receiver's part of the batched circuit: paper.rs.
//
// The circuit's field has order q, the inner group has a smaller order. The slot
// derives the pad of a receiver from the dealer's secret and binds it to the public
// pad commitment.
module ReceiverSlot {
  import opened Wrappers
  import opened Bits
  import opened Scalars
  import opened LinearCombinations
  import opened ConstraintSystems
  import opened BitGadgets
  import opened Chords
  import opened ChordGadget

  const WINDOWS: nat := 128

  // ----- the field crossing -----

  // The slot's constraints on (pad, reduce) hold of exactly one pair: r modulo the inner
  // order, and whether r reaches it.
  lemma FieldCrossing(r: Scalar, pad: Scalar, reduce: Scalar, order: nat)
    requires order < q < 2 * order
    ensures
      (IsBit(reduce) && pad == Sub(r, Mul(reduce, order)) && pad < order && (reduce == 1 ==> pad < q - order)) <==>
      (pad == r % order && reduce == OfBool(r >= order))
  {
    ResidueBelowTwice(r, order);
    TimesUnits(order);
    if reduce == 1 {
      Borrow(r, order);
    }
  }

  lemma ResidueBelowTwice(r: nat, order: nat)
    requires 0 < order && r < 2 * order
    ensures r % order == if r < order then r else r - order
  {
    Modular.ModIs(order, r, if r < order then 0 else 1, if r < order then r else r - order);
  }

  lemma Borrow(r: Scalar, x: Scalar)
    ensures Sub(r, x) == if r < x then r - x + q else r - x
  {
    if r < x {
      RedEq(r - x, r - x + q, -1);
    }
  }

  // ----- the values a dealer secret determines -----

  // The tables and the weight of one slot.
  datatype Slot = Slot(pk: Chord, h1: Chord, h2: Chord, g: Chord, beta: Scalar) {
    ghost predicate Valid() {
      && pk.curve == h1.curve == h2.curve == g.curve && g.curve.Lawful()
      && pk.lambda == h1.lambda == h2.lambda == g.lambda == K_BITS
      && pk.Tabulable() && h1.Tabulable() && h2.Tabulable() && g.Tabulable()
      && Order() < q < 2 * Order() && K_BITS + 1 < q < Pow2(K_BITS)
    }

    function Order(): nat {
      g.curve.order
    }

    // k = the x coordinate of sk PK
    function K(sk: seq<bool>): Scalar {
      pk.curve.at(Times(Number(sk), pk.base)).x
    }

    function KBits(sk: seq<bool>): (r: seq<bool>)
      ensures |r| == K_BITS + 1
    {
      BitsOf(K(sk), K_BITS + 1)
    }

    // r = beta (k H1).x + (k H2).x
    function R(sk: seq<bool>): Scalar {
      Add(Mul(beta, h1.curve.at(Times(K(sk), h1.base)).x), h2.curve.at(Times(K(sk), h2.base)).x)
    }

    function Pad(sk: seq<bool>): nat {
      R(sk) % g.curve.order
    }

    function PadBits(sk: seq<bool>): (r: seq<bool>)
      ensures |r| == K_BITS + 1
    {
      BitsOf(Pad(sk), K_BITS + 1)
    }

    // Every addition of the slot's four exponentiations is a chord.
    predicate RegularExponents(sk: seq<bool>)
      requires |sk| == K_BITS + 1
    {
      pk.RegularTo(sk, WINDOWS) && h1.RegularTo(KBits(sk), WINDOWS) && h2.RegularTo(KBits(sk), WINDOWS)
    }

    predicate Regular(sk: seq<bool>)
      requires |sk| == K_BITS + 1
    {
      RegularExponents(sk) && g.RegularTo(PadBits(sk), WINDOWS)
    }
  }

  lemma ResidueRange(r: Scalar, order: nat)
    requires order > 0
    ensures 0 <= r % order < order && r % order <= r
  {
    if r < order {
      Modular.ModIs(order, r, 0, r);
    }
  }

  datatype HiddenReceiverWitness = HiddenReceiverWitness(
    skPkj: ChordWitness, kBits: seq<Option<Scalar>>, t1: ChordWitness, t2: ChordWitness,
    reduceQ: Scalar, pad: Scalar, padBits: seq<Option<Scalar>>, padCommitment: ChordWitness)

  predicate Shaped(wit: Option<HiddenReceiverWitness>) {
    wit.Some? ==>
      && WitnessFits(Some(wit.value.skPkj), WINDOWS) && WitnessFits(Some(wit.value.t1), WINDOWS)
      && WitnessFits(Some(wit.value.t2), WINDOWS) && WitnessFits(Some(wit.value.padCommitment), WINDOWS)
      && |wit.value.kBits| == K_BITS + 1 == |wit.value.padBits|
      && AllAssigned(wit.value.kBits) && AllAssigned(wit.value.padBits)
  }

  function NoBits(): (r: seq<Option<Scalar>>)
    ensures |r| == K_BITS + 1
  {
    seq(K_BITS + 1, i => None)
  }

  // ----- k -----

  // What the wires say of k: its bits, when the secret's exponentiation is regular.
  predicate KSpelled(w: Wires, sl: Slot, skBits: seq<Variable>, kBits: seq<Variable>)
    requires |skBits| == K_BITS + 1 && sl.pk.lambda == K_BITS
  {
    sl.pk.RegularTo(ReadBits(w, skBits), WINDOWS) ==> ReadBits(w, kBits) == sl.KBits(ReadBits(w, skBits))
  }

  predicate HonestK(sl: Slot, sk: seq<bool>, wit: Option<HiddenReceiverWitness>)
    requires |sk| == K_BITS + 1 && sl.pk.lambda == K_BITS
  {
    && sl.pk.RegularTo(sk, WINDOWS) && wit.Some?
    && wit.value.skPkj == WitnessOf(sl.pk, sk) && wit.value.kBits == BitOptions(sl.KBits(sk))
  }

  // S = sk PK, and the canonical bits of its x coordinate with their window products.
  method DecomposeSecretPoint(cs: ConstraintSystem, skBits: seq<Variable>, skProducts: seq<Variable>, precomp: ChordPrecomp, wit: Option<HiddenReceiverWitness>, ghost sl: Slot)
    returns (r: Result<(seq<Variable>, seq<Variable>), R1CSError>)
    requires sl.Valid() && precomp == Tables(sl.pk) && |skBits| == K_BITS + 1 && |skProducts| == WINDOWS && Shaped(wit)
    requires cs.State().WellFormed() && AllKnown(cs.State(), skBits) && AllKnown(cs.State(), skProducts)
    requires forall w: Wires :: w.Satisfies(cs.constraints) ==> Inputs(w, skBits, skProducts)
    modifies cs
    ensures r.Err? <==> cs.proving && wit.None?
    ensures cs.State().WellFormed() && Grown(old(cs.State()), cs.State())
    ensures r.Ok? ==>
      && |r.value.0| == K_BITS + 1 && |r.value.1| == WINDOWS && AllKnown(cs.State(), r.value.0) && AllKnown(cs.State(), r.value.1)
      && cs.gates == old(cs.gates) + ChordGates(WINDOWS) + 2 * (K_BITS + 1) + WINDOWS
      && (cs.pendingMultiplier.None? <==> old(cs.pendingMultiplier).None?)
      && (old(cs.State()).Honest() && HonestK(sl, ReadBits(old(cs.State()).Own(), skBits), wit) ==> cs.State().Honest())
      && forall w: Wires :: w.Satisfies(cs.constraints) ==>
        w.Satisfies(old(cs.constraints)) && Inputs(w, r.value.0, r.value.1) && KSpelled(w, sl, skBits, r.value.0)
  {
    ghost var s := cs.State();
    var point := ChordExponentiateR1csWithResult(cs, skBits, precomp, skProducts, None, if wit.Some? then Some(wit.value.skPkj) else None, sl.pk);
    if point.Err? {
      return Err(point.error);
    }
    var (x, y) := point.value;
    ghost var t := cs.State();
    GrownBits(s, t, skBits);
    if t.Honest() && HonestK(sl, ReadBits(s.Own(), skBits), wit) {
      CanonicalBitsExist(sl.K(ReadBits(s.Own(), skBits)), q);
    }
    r := DecomposeWithProducts(cs, x, if wit.Some? then wit.value.kBits else NoBits(), q);
    if r.Ok? {
      forall w: Wires | w.Satisfies(cs.constraints)
        ensures KSpelled(w, sl, skBits, r.value.0)
      {
        KFollows(w, sl, skBits, r.value.0, x, y);
      }
    }
  }

  // A canonical decomposition and its window products.
  method DecomposeWithProducts(cs: ConstraintSystem, k: Variable, assignments: seq<Option<Scalar>>, modulus: nat)
    returns (r: Result<(seq<Variable>, seq<Variable>), R1CSError>)
    requires cs.State().WellFormed() && cs.State().Known(k) && modulus < Pow2(K_BITS) && |assignments| == K_BITS + 1
    modifies cs
    ensures r.Err? <==> cs.proving && !AllAssigned(assignments)
    ensures cs.State().WellFormed() && Grown(old(cs.State()), cs.State())
    ensures r.Ok? ==>
      && |r.value.0| == K_BITS + 1 && |r.value.1| == WINDOWS && AllKnown(cs.State(), r.value.0) && AllKnown(cs.State(), r.value.1)
      && cs.gates == old(cs.gates) + 2 * (K_BITS + 1) + WINDOWS && cs.pendingMultiplier == old(cs.pendingMultiplier)
      && (cs.proving ==> Carries(cs.State(), r.value.0, assignments))
      && (old(cs.State()).Honest() && HonestBits(assignments, old(cs.State()).Own().Value(k), modulus) ==> cs.State().Honest())
      && forall w: Wires :: w.Satisfies(cs.constraints) ==>
        w.Satisfies(old(cs.constraints)) && Inputs(w, r.value.0, r.value.1) && Canonical(w, r.value.0, k, modulus)
  {
    var bits := BitDecomposeBounded(cs, k, assignments, modulus);
    if bits.Err? {
      return Err(bits.error);
    }
    var products := ChordWindowProducts(cs, bits.value);
    r := Ok((bits.value, products.value));
  }

  lemma KFollows(w: Wires, sl: Slot, skBits: seq<Variable>, kBits: seq<Variable>, x: Variable, y: Variable)
    requires sl.pk.lambda == K_BITS && |skBits| == K_BITS + 1 == |kBits|
    requires Exponentiated(w, sl.pk, skBits, x, y) && Canonical(w, kBits, x, q)
    ensures Boolean(w, kBits) && KSpelled(w, sl, skBits, kBits)
  {
    CanonicalBitsUnique(w, w, kBits, x, q);
  }

  // ----- T1 and T2 -----

  predicate XIs(w: Wires, c: Chord, bits: seq<bool>, x: Variable)
    requires |bits| == c.lambda + 1
  {
    c.RegularTo(bits, c.lambda / 2) ==> w.Value(x) == c.curve.at(Times(Number(bits), c.base)).x
  }

  predicate HonestExponents(sl: Slot, sk: seq<bool>, wit: Option<HiddenReceiverWitness>)
    requires |sk| == K_BITS + 1 && sl.pk.lambda == sl.h1.lambda == sl.h2.lambda == K_BITS
  {
    && HonestK(sl, sk, wit) && sl.RegularExponents(sk)
    && wit.value.t1 == WitnessOf(sl.h1, sl.KBits(sk)) && wit.value.t2 == WitnessOf(sl.h2, sl.KBits(sk))
  }

  // The x coordinates of T1 and T2 that the secret determines.
  predicate ExponentsOf(w: Wires, sl: Slot, skBits: seq<Variable>, x1: Variable, x2: Variable)
    requires |skBits| == K_BITS + 1 && sl.pk.lambda == sl.h1.lambda == sl.h2.lambda == K_BITS
  {
    var sk := ReadBits(w, skBits);
    sl.RegularExponents(sk) ==>
      && w.Value(x1) == sl.h1.curve.at(Times(Number(sl.KBits(sk)), sl.h1.base)).x
      && w.Value(x2) == sl.h2.curve.at(Times(Number(sl.KBits(sk)), sl.h2.base)).x
  }

  // k H1 and k H2.
  method HiddenExponents(cs: ConstraintSystem, skBits: seq<Variable>, skProducts: seq<Variable>, precompPkj: ChordPrecomp, precompH1: ChordPrecomp, precompH2: ChordPrecomp, wit: Option<HiddenReceiverWitness>, ghost sl: Slot)
    returns (r: Result<(Variable, Variable), R1CSError>)
    requires sl.Valid() && precompPkj == Tables(sl.pk) && precompH1 == Tables(sl.h1) && precompH2 == Tables(sl.h2)
    requires |skBits| == K_BITS + 1 && |skProducts| == WINDOWS && Shaped(wit)
    requires cs.State().WellFormed() && AllKnown(cs.State(), skBits) && AllKnown(cs.State(), skProducts)
    requires forall w: Wires :: w.Satisfies(cs.constraints) ==> Inputs(w, skBits, skProducts)
    modifies cs
    ensures r.Err? <==> cs.proving && wit.None?
    ensures cs.State().WellFormed() && Grown(old(cs.State()), cs.State())
    ensures r.Ok? ==>
      && cs.State().Known(r.value.0) && cs.State().Known(r.value.1)
      && cs.gates == old(cs.gates) + 3 * ChordGates(WINDOWS) + 2 * (K_BITS + 1) + WINDOWS
      && (cs.pendingMultiplier.None? <==> old(cs.pendingMultiplier).None?)
      && (old(cs.State()).Honest() && HonestExponents(sl, ReadBits(old(cs.State()).Own(), skBits), wit) ==> cs.State().Honest())
      && forall w: Wires :: w.Satisfies(cs.constraints) ==>
        w.Satisfies(old(cs.constraints)) && ExponentsOf(w, sl, skBits, r.value.0, r.value.1)
  {
    ghost var s := cs.State();
    var k := DecomposeSecretPoint(cs, skBits, skProducts, precompPkj, wit, sl);
    if k.Err? {
      return Err(k.error);
    }
    var (kBits, kProducts) := k.value;
    ghost var t := cs.State();
    GrownBits(s, t, skBits);
    if t.Honest() && HonestExponents(sl, ReadBits(s.Own(), skBits), wit) {
      HonestPowers(t.Own(), sl, skBits, kBits, wit);
    }
    var wit1, wit2 := if wit.Some? then Some(wit.value.t1) else None, if wit.Some? then Some(wit.value.t2) else None;
    r := TwoExponentiations(cs, kBits, kProducts, precompH1, precompH2, wit1, wit2, sl.h1, sl.h2);
    if r.Ok? {
      forall w: Wires | w.Satisfies(cs.constraints)
        ensures ExponentsOf(w, sl, skBits, r.value.0, r.value.1)
      {
        ExponentsFollow(w, sl, skBits, kBits, r.value.0, r.value.1);
      }
    }
  }

  lemma HonestPowers(w: Wires, sl: Slot, skBits: seq<Variable>, kBits: seq<Variable>, wit: Option<HiddenReceiverWitness>)
    requires sl.pk.lambda == sl.h1.lambda == sl.h2.lambda == K_BITS && |skBits| == |kBits| == K_BITS + 1
    requires KSpelled(w, sl, skBits, kBits) && HonestExponents(sl, ReadBits(w, skBits), wit)
    ensures HonestChord(sl.h1, ReadBits(w, kBits), None, Some(wit.value.t1)) && HonestChord(sl.h2, ReadBits(w, kBits), None, Some(wit.value.t2))
  {
  }

  lemma ExponentsFollow(w: Wires, sl: Slot, skBits: seq<Variable>, kBits: seq<Variable>, x1: Variable, x2: Variable)
    requires sl.pk.lambda == sl.h1.lambda == sl.h2.lambda == K_BITS && |skBits| == |kBits| == K_BITS + 1
    requires KSpelled(w, sl, skBits, kBits) && XIs(w, sl.h1, ReadBits(w, kBits), x1) && XIs(w, sl.h2, ReadBits(w, kBits), x2)
    ensures ExponentsOf(w, sl, skBits, x1, x2)
  {
  }

  // Two exponentiations by the same bits.
  method TwoExponentiations(cs: ConstraintSystem, bits: seq<Variable>, products: seq<Variable>, precomp1: ChordPrecomp, precomp2: ChordPrecomp, wit1: Option<ChordWitness>, wit2: Option<ChordWitness>, ghost c1: Chord, ghost c2: Chord)
    returns (r: Result<(Variable, Variable), R1CSError>)
    requires c1.curve.Lawful() && c2.curve.Lawful() && c1.Tabulable() && c2.Tabulable() && c1.lambda == c2.lambda == K_BITS
    requires precomp1 == Tables(c1) && precomp2 == Tables(c2)
    requires |bits| == K_BITS + 1 && |products| == WINDOWS && WitnessFits(wit1, WINDOWS) && WitnessFits(wit2, WINDOWS) && (wit1.Some? <==> wit2.Some?)
    requires cs.State().WellFormed() && AllKnown(cs.State(), bits) && AllKnown(cs.State(), products)
    requires forall w: Wires :: w.Satisfies(cs.constraints) ==> Inputs(w, bits, products)
    modifies cs
    ensures r.Err? <==> cs.proving && wit1.None?
    ensures cs.State().WellFormed() && Grown(old(cs.State()), cs.State())
    ensures r.Ok? ==>
      && cs.State().Known(r.value.0) && cs.State().Known(r.value.1)
      && cs.gates == old(cs.gates) + 2 * ChordGates(WINDOWS) && (cs.pendingMultiplier.None? <==> old(cs.pendingMultiplier).None?)
      && (old(cs.State()).Honest() && HonestChord(c1, ReadBits(old(cs.State()).Own(), bits), None, wit1) && HonestChord(c2, ReadBits(old(cs.State()).Own(), bits), None, wit2) ==>
          cs.State().Honest())
      && forall w: Wires :: w.Satisfies(cs.constraints) ==>
        w.Satisfies(old(cs.constraints)) && XIs(w, c1, ReadBits(w, bits), r.value.0) && XIs(w, c2, ReadBits(w, bits), r.value.1)
  {
    ghost var s := cs.State();
    var first := ChordExponentiateR1csWithResult(cs, bits, precomp1, products, None, wit1, c1);
    if first.Err? {
      return Err(first.error);
    }
    GrownBits(s, cs.State(), bits);
    var second := ChordExponentiateR1csWithResult(cs, bits, precomp2, products, None, wit2, c2);
    if second.Err? {
      return Err(second.error);
    }
    r := Ok((first.value.0, second.value.0));
  }

  // ----- the pad -----

  predicate HonestReduction(rVal: Scalar, order: Scalar, wit: Option<HiddenReceiverWitness>) {
    wit.Some? && IsBit(wit.value.reduceQ) && wit.value.pad == Sub(rVal, Mul(wit.value.reduceQ, order))
  }

  // pad = r - reduce * order, with reduce a bit.
  method ReducePad(cs: ConstraintSystem, x1: Variable, x2: Variable, beta: Scalar, order: Scalar, wit: Option<HiddenReceiverWitness>)
    returns (r: Result<(Variable, Variable), R1CSError>)
    requires cs.State().WellFormed() && cs.State().Known(x1) && cs.State().Known(x2)
    modifies cs
    ensures r.Err? <==> cs.proving && wit.None?
    ensures cs.State().WellFormed() && Grown(old(cs.State()), cs.State())
    ensures r.Ok? ==>
      && cs.State().Known(r.value.0) && cs.State().Known(r.value.1)
      && cs.gates == old(cs.gates) + 1 + (if old(cs.pendingMultiplier).None? then 1 else 0)
      && (cs.pendingMultiplier.None? <==> old(cs.pendingMultiplier).Some?)
      && (cs.proving ==> cs.State().Own().Value(r.value.0) == wit.value.pad && cs.State().Own().Value(r.value.1) == wit.value.reduceQ)
      && (old(cs.State()).Honest() && HonestReduction(Combined(old(cs.State()).Own(), x1, x2, beta), order, wit) ==> cs.State().Honest())
      && forall w: Wires :: w.Satisfies(cs.constraints) ==>
        && w.Satisfies(old(cs.constraints)) && IsBit(w.Value(r.value.1))
        && w.Value(r.value.0) == Sub(Combined(w, x1, x2, beta), Mul(w.Value(r.value.1), order))
  {
    var rLc := Plus(Scaled(x1, beta), Var(x2));
    var pad := cs.Allocate(if wit.Some? then Some(wit.value.pad) else None);
    if pad.Err? {
      return Err(pad.error);
    }
    var bit := ConstrainBit(cs, if wit.Some? then Some(wit.value.reduceQ) else None);
    if bit.Err? {
      // The pad's assignment was present, so this one is.
      assert false;
    }
    var reduce := bit.value.0;
    var reduced := Minus(rLc, Scaled(reduce, order));
    VarEquals(pad.value, reduced);
    forall w: Wires
      ensures w.Eval(reduced) == Sub(Combined(w, x1, x2, beta), Mul(w.Value(reduce), order))
    {
      EvalMinus(w, rLc, Scaled(reduce, order));
      EvalPlus(w, Scaled(x1, beta), Var(x2));
      EvalTerm(w, x1, beta);
      EvalTerm(w, x2, 1);
      EvalTerm(w, reduce, order);
      TimesCommutes(order, w.Value(reduce));
    }
    cs.Constrain(Minus(Var(pad.value), reduced));
    r := Ok((pad.value, reduce));
  }

  // beta T1.x + T2.x
  function Combined(w: Wires, x1: Variable, x2: Variable, beta: Scalar): Scalar {
    Add(Mul(beta, w.Value(x1)), w.Value(x2))
  }

  ghost predicate HonestBounds(assignments: seq<Option<Scalar>>, pad: Scalar, reduce: Scalar, order: nat) {
    HonestBits(assignments, pad, order) && (reduce != 0 ==> pad < q - order)
  }

  // The pad's bits: canonical below the order, and below q - order when reduced.
  method BoundPad(cs: ConstraintSystem, pad: Variable, reduce: Variable, assignments: seq<Option<Scalar>>, order: nat)
    returns (r: Result<(seq<Variable>, seq<Variable>), R1CSError>)
    requires cs.State().WellFormed() && cs.State().Known(pad) && cs.State().Known(reduce)
    requires 0 < order < q < Pow2(K_BITS) && K_BITS + 1 < q && |assignments| == K_BITS + 1
    modifies cs
    ensures r.Err? <==> cs.proving && !AllAssigned(assignments)
    ensures cs.State().WellFormed() && Grown(old(cs.State()), cs.State())
    ensures r.Ok? ==>
      && |r.value.0| == K_BITS + 1 && |r.value.1| == WINDOWS && AllKnown(cs.State(), r.value.0) && AllKnown(cs.State(), r.value.1)
      && cs.gates == old(cs.gates) + 2 * (K_BITS + 1) + BoundGates(q - order, K_BITS + 1) + WINDOWS
      && cs.pendingMultiplier == old(cs.pendingMultiplier)
      && (old(cs.State()).Honest() && HonestBounds(assignments, old(cs.State()).Own().Value(pad), old(cs.State()).Own().Value(reduce), order) ==>
          cs.State().Honest())
      && forall w: Wires :: w.Satisfies(cs.constraints) ==>
        && w.Satisfies(old(cs.constraints)) && Inputs(w, r.value.0, r.value.1) && Canonical(w, r.value.0, pad, order)
        && BoundWhen(w, r.value.0, q - order, reduce)
  {
    var bits := BoundedBits(cs, pad, reduce, assignments, order);
    if bits.Err? {
      return Err(bits.error);
    }
    var products := ChordWindowProducts(cs, bits.value);
    r := Ok((bits.value, products.value));
  }

  method BoundedBits(cs: ConstraintSystem, pad: Variable, reduce: Variable, assignments: seq<Option<Scalar>>, order: nat)
    returns (r: Result<seq<Variable>, R1CSError>)
    requires cs.State().WellFormed() && cs.State().Known(pad) && cs.State().Known(reduce)
    requires 0 < order < q < Pow2(K_BITS) && K_BITS + 1 < q && |assignments| == K_BITS + 1
    modifies cs
    ensures r.Err? <==> cs.proving && !AllAssigned(assignments)
    ensures cs.State().WellFormed() && Grown(old(cs.State()), cs.State())
    ensures r.Ok? ==>
      && |r.value| == K_BITS + 1 && AllKnown(cs.State(), r.value)
      && cs.gates == old(cs.gates) + 2 * (K_BITS + 1) + BoundGates(q - order, K_BITS + 1)
      && cs.pendingMultiplier == old(cs.pendingMultiplier)
      && (old(cs.State()).Honest() && HonestBounds(assignments, old(cs.State()).Own().Value(pad), old(cs.State()).Own().Value(reduce), order) ==>
          cs.State().Honest())
      && forall w: Wires :: w.Satisfies(cs.constraints) ==>
        && w.Satisfies(old(cs.constraints)) && Canonical(w, r.value, pad, order) && BoundWhen(w, r.value, q - order, reduce)
  {
    r := BitDecomposeBounded(cs, pad, assignments, order);
    if r.Err? {
      return;
    }
    ghost var t := cs.State();
    if t.Honest() {
      CanonicalBitsUnique(t.Own(), t.Own(), r.value, pad, order);
    }
    var bounded := ConstrainBitsLtBoundWhen(cs, r.value, assignments, q - order, reduce);
  }

  // The prover's pad, reduction flag and bits for a given r.
  predicate HonestPad(rVal: Scalar, order: nat, wit: Option<HiddenReceiverWitness>)
    requires 0 < order
  {
    && wit.Some? && wit.value.pad == rVal % order && wit.value.reduceQ == OfBool(rVal >= order)
    && wit.value.padBits == BitOptions(BitsOf(rVal % order, K_BITS + 1))
  }

  // The bits of r modulo the order.
  predicate PadSpelled(w: Wires, x1: Variable, x2: Variable, beta: Scalar, order: nat, padBits: seq<Variable>)
    requires 0 < order
  {
    ReadBits(w, padBits) == BitsOf(Combined(w, x1, x2, beta) % order, K_BITS + 1)
  }

  lemma PadFollows(w: Wires, x1: Variable, x2: Variable, beta: Scalar, order: nat, pad: Variable, reduce: Variable, padBits: seq<Variable>)
    requires order < q < 2 * order && |padBits| == K_BITS + 1
    requires IsBit(w.Value(reduce)) && w.Value(pad) == Sub(Combined(w, x1, x2, beta), Mul(w.Value(reduce), order))
    requires Canonical(w, padBits, pad, order) && BoundWhen(w, padBits, q - order, reduce)
    ensures PadSpelled(w, x1, x2, beta, order, padBits)
  {
    CanonicalBitsUnique(w, w, padBits, pad, order);
    FieldCrossing(Combined(w, x1, x2, beta), w.Value(pad), w.Value(reduce), order);
  }

  lemma HonestPadFits(rVal: Scalar, order: nat, wit: Option<HiddenReceiverWitness>)
    requires order < q < 2 * order && q < Pow2(K_BITS) && HonestPad(rVal, order, wit)
    ensures IsBit(wit.value.reduceQ) && wit.value.pad == Sub(rVal, Mul(wit.value.reduceQ, order))
    ensures HonestBits(wit.value.padBits, wit.value.pad, order)
    ensures wit.value.reduceQ != 0 ==> wit.value.pad < q - order
  {
    FieldCrossing(rVal, wit.value.pad, wit.value.reduceQ, order);
    CanonicalBitsExist(wit.value.pad, order);
  }

  // r modulo the inner order, as bits.
  method HiddenPad(cs: ConstraintSystem, x1: Variable, x2: Variable, beta: Scalar, order: nat, wit: Option<HiddenReceiverWitness>)
    returns (r: Result<(seq<Variable>, seq<Variable>), R1CSError>)
    requires cs.State().WellFormed() && cs.State().Known(x1) && cs.State().Known(x2)
    requires order < q < 2 * order && K_BITS + 1 < q < Pow2(K_BITS) && Shaped(wit)
    modifies cs
    ensures r.Err? <==> cs.proving && wit.None?
    ensures cs.State().WellFormed() && Grown(old(cs.State()), cs.State())
    ensures r.Ok? ==>
      && |r.value.0| == K_BITS + 1 && |r.value.1| == WINDOWS && AllKnown(cs.State(), r.value.0) && AllKnown(cs.State(), r.value.1)
      && cs.gates == old(cs.gates) + 1 + (if old(cs.pendingMultiplier).None? then 1 else 0) + 2 * (K_BITS + 1) + BoundGates(q - order, K_BITS + 1) + WINDOWS
      && (cs.pendingMultiplier.None? <==> old(cs.pendingMultiplier).Some?)
      && (old(cs.State()).Honest() && HonestPad(Combined(old(cs.State()).Own(), x1, x2, beta), order, wit) ==> cs.State().Honest())
      && forall w: Wires :: w.Satisfies(cs.constraints) ==>
        w.Satisfies(old(cs.constraints)) && Inputs(w, r.value.0, r.value.1) && PadSpelled(w, x1, x2, beta, order, r.value.0)
  {
    ghost var s := cs.State();
    if s.Honest() && HonestPad(Combined(s.Own(), x1, x2, beta), order, wit) {
      HonestPadFits(Combined(s.Own(), x1, x2, beta), order, wit);
    }
    var pair := ReducePad(cs, x1, x2, beta, order, wit);
    if pair.Err? {
      return Err(pair.error);
    }
    var (pad, reduce) := pair.value;
    ghost var t := cs.constraints;
    r := BoundPad(cs, pad, reduce, if wit.Some? then wit.value.padBits else NoBits(), order);
    if r.Ok? {
      forall w: Wires | w.Satisfies(cs.constraints)
        ensures w.Satisfies(s.constraints) && PadSpelled(w, x1, x2, beta, order, r.value.0)
      {
        assert w.Satisfies(t);
        PadFollows(w, x1, x2, beta, order, pad, reduce, r.value.0);
      }
    }
  }

  // ----- the whole slot -----

  lemma SlotNumbers(sl: Slot, sk: seq<bool>)
    requires sl.Order() < q < Pow2(K_BITS)
    ensures Number(sl.KBits(sk)) == sl.K(sk)
    ensures sl.Pad(sk) < sl.Order() && Number(sl.PadBits(sk)) == sl.Pad(sk)
  {
    Pow2Monotone(K_BITS, K_BITS + 1);
    ResidueRange(sl.R(sk), sl.Order());
    NumberOfBits(sl.K(sk), K_BITS + 1);
    NumberOfBits(sl.Pad(sk), K_BITS + 1);
  }

  // The public commitment is the pad's multiple of the generator.
  predicate CommitmentDerived(w: Wires, sl: Slot, skBits: seq<Variable>, commitment: Log)
    requires |skBits| == K_BITS + 1 && sl.pk.lambda == sl.h1.lambda == sl.h2.lambda == sl.g.lambda == K_BITS
  {
    var sk := ReadBits(w, skBits);
    sl.Regular(sk) ==> sl.g.curve.at(commitment) == sl.g.curve.at(Times(sl.Pad(sk), sl.g.base))
  }

  // The witness a slot's prover computes.
  predicate WitnessDerived(sl: Slot, sk: seq<bool>, commitment: Log, wit: Option<HiddenReceiverWitness>)
    requires |sk| == K_BITS + 1 && sl.pk.lambda == sl.h1.lambda == sl.h2.lambda == sl.g.lambda == K_BITS
  {
    && HonestReceiverPad(sl, sk, wit) && sl.Regular(sk)
    && wit.value.padCommitment == WitnessOf(sl.g, sl.PadBits(sk))
    && sl.g.curve.at(commitment) == sl.g.curve.at(Times(sl.Pad(sk), sl.g.base))
  }

  // Both folded, for the circuits that only carry them.
  predicate FoldedBinds(w: Wires, sl: Slot, skBits: seq<Variable>, commitment: Log, n: nat)
    requires |skBits| == K_BITS + 1 && sl.pk.lambda == sl.h1.lambda == sl.h2.lambda == sl.g.lambda == K_BITS
    decreases n
  {
    if n == 0 then CommitmentDerived(w, sl, skBits, commitment) else FoldedBinds(w, sl, skBits, commitment, n - 1)
  }

  predicate SlotBinds(w: Wires, sl: Slot, skBits: seq<Variable>, commitment: Log)
    requires |skBits| == K_BITS + 1 && sl.pk.lambda == sl.h1.lambda == sl.h2.lambda == sl.g.lambda == K_BITS
  {
    FoldedBinds(w, sl, skBits, commitment, q)
  }

  lemma UnfoldBinds(w: Wires, sl: Slot, skBits: seq<Variable>, commitment: Log, n: nat)
    requires |skBits| == K_BITS + 1 && sl.pk.lambda == sl.h1.lambda == sl.h2.lambda == sl.g.lambda == K_BITS
    ensures FoldedBinds(w, sl, skBits, commitment, n) <==> CommitmentDerived(w, sl, skBits, commitment)
    decreases n
  {
  }

  predicate FoldedHonest(sl: Slot, sk: seq<bool>, commitment: Log, wit: Option<HiddenReceiverWitness>, n: nat)
    requires |sk| == K_BITS + 1 && sl.pk.lambda == sl.h1.lambda == sl.h2.lambda == sl.g.lambda == K_BITS
    decreases n
  {
    if n == 0 then WitnessDerived(sl, sk, commitment, wit) else FoldedHonest(sl, sk, commitment, wit, n - 1)
  }

  predicate HonestSlot(sl: Slot, sk: seq<bool>, commitment: Log, wit: Option<HiddenReceiverWitness>)
    requires |sk| == K_BITS + 1 && sl.pk.lambda == sl.h1.lambda == sl.h2.lambda == sl.g.lambda == K_BITS
  {
    FoldedHonest(sl, sk, commitment, wit, q)
  }

  lemma UnfoldHonest(sl: Slot, sk: seq<bool>, commitment: Log, wit: Option<HiddenReceiverWitness>, n: nat)
    requires |sk| == K_BITS + 1 && sl.pk.lambda == sl.h1.lambda == sl.h2.lambda == sl.g.lambda == K_BITS
    ensures FoldedHonest(sl, sk, commitment, wit, n) <==> WitnessDerived(sl, sk, commitment, wit)
    decreases n
  {
  }

  // Multipliers of a slot, not counting the pad wire of its own.
  function SlotGates(bound: nat): nat {
    4 * ChordGates(WINDOWS) + 2 * (2 * (K_BITS + 1) + WINDOWS) + 1 + BoundGates(bound, K_BITS + 1)
  }

  lemma PadOfExponents(w: Wires, sl: Slot, skBits: seq<Variable>, x1: Variable, x2: Variable)
    requires sl.Valid() && |skBits| == K_BITS + 1 && ExponentsOf(w, sl, skBits, x1, x2) && sl.RegularExponents(ReadBits(w, skBits))
    ensures Combined(w, x1, x2, sl.beta) == sl.R(ReadBits(w, skBits))
  {
    SlotNumbers(sl, ReadBits(w, skBits));
  }

  // The pad's bits on the wires, as the secret determines them.
  predicate PadDerived(w: Wires, sl: Slot, skBits: seq<Variable>, padBits: seq<Variable>)
    requires |skBits| == K_BITS + 1 && sl.pk.lambda == sl.h1.lambda == sl.h2.lambda == K_BITS
  {
    sl.RegularExponents(ReadBits(w, skBits)) ==> ReadBits(w, padBits) == sl.PadBits(ReadBits(w, skBits))
  }

  lemma PadDerivedFollows(w: Wires, sl: Slot, skBits: seq<Variable>, x1: Variable, x2: Variable, padBits: seq<Variable>)
    requires sl.Valid() && |skBits| == |padBits| == K_BITS + 1 && ExponentsOf(w, sl, skBits, x1, x2)
    requires PadSpelled(w, x1, x2, sl.beta, sl.Order(), padBits)
    ensures PadDerived(w, sl, skBits, padBits)
  {
    if sl.RegularExponents(ReadBits(w, skBits)) {
      PadOfExponents(w, sl, skBits, x1, x2);
    }
  }

  predicate HonestReceiverPad(sl: Slot, sk: seq<bool>, wit: Option<HiddenReceiverWitness>)
    requires |sk| == K_BITS + 1 && sl.pk.lambda == sl.h1.lambda == sl.h2.lambda == sl.g.lambda == K_BITS
  {
    HonestExponents(sl, sk, wit) && HonestPad(sl.R(sk), sl.Order(), wit)
  }

  // The bits of the pad of this receiver.
  method DerivePad(cs: ConstraintSystem, skBits: seq<Variable>, skProducts: seq<Variable>, precompPkj: ChordPrecomp, precompH1: ChordPrecomp, precompH2: ChordPrecomp, order: nat, beta: Scalar, wit: Option<HiddenReceiverWitness>, ghost sl: Slot)
    returns (r: Result<(seq<Variable>, seq<Variable>), R1CSError>)
    requires sl.Valid() && sl.beta == beta && sl.Order() == order
    requires precompPkj == Tables(sl.pk) && precompH1 == Tables(sl.h1) && precompH2 == Tables(sl.h2)
    requires |skBits| == K_BITS + 1 && |skProducts| == WINDOWS && Shaped(wit)
    requires cs.State().WellFormed() && AllKnown(cs.State(), skBits) && AllKnown(cs.State(), skProducts)
    requires forall w: Wires :: w.Satisfies(cs.constraints) ==> Inputs(w, skBits, skProducts)
    modifies cs
    ensures r.Err? <==> cs.proving && wit.None?
    ensures cs.State().WellFormed() && Grown(old(cs.State()), cs.State())
    ensures r.Ok? ==>
      && |r.value.0| == K_BITS + 1 && |r.value.1| == WINDOWS && AllKnown(cs.State(), r.value.0) && AllKnown(cs.State(), r.value.1)
      && cs.gates == old(cs.gates) + SlotGates(q - order) - ChordGates(WINDOWS) + (if old(cs.pendingMultiplier).None? then 1 else 0)
      && (cs.pendingMultiplier.None? <==> old(cs.pendingMultiplier).Some?)
      && (old(cs.State()).Honest() && HonestReceiverPad(sl, ReadBits(old(cs.State()).Own(), skBits), wit) ==> cs.State().Honest())
      && forall w: Wires :: w.Satisfies(cs.constraints) ==>
        w.Satisfies(old(cs.constraints)) && Inputs(w, r.value.0, r.value.1) && PadDerived(w, sl, skBits, r.value.0)
  {
    ghost var s := cs.State();
    var exponents := HiddenExponents(cs, skBits, skProducts, precompPkj, precompH1, precompH2, wit, sl);
    if exponents.Err? {
      return Err(exponents.error);
    }
    var (x1, x2) := exponents.value;
    ghost var t := cs.State();
    GrownBits(s, t, skBits);
    if t.Honest() && HonestReceiverPad(sl, ReadBits(s.Own(), skBits), wit) {
      PadOfExponents(t.Own(), sl, skBits, x1, x2);
    }
    r := HiddenPad(cs, x1, x2, beta, order, wit);
    if r.Ok? {
      forall w: Wires | w.Satisfies(cs.constraints)
        ensures PadDerived(w, sl, skBits, r.value.0)
      {
        PadDerivedFollows(w, sl, skBits, x1, x2, r.value.0);
      }
    }
  }

  lemma SlotFollows(w: Wires, sl: Slot, skBits: seq<Variable>, padBits: seq<Variable>, x: Variable, y: Variable, commitment: Log)
    requires sl.Valid() && |skBits| == |padBits| == K_BITS + 1 && PadDerived(w, sl, skBits, padBits)
    requires Exponentiated(w, sl.g, padBits, x, y) && Bound(w, x, y, Some(sl.g.curve.at(commitment)))
    ensures SlotBinds(w, sl, skBits, commitment)
  {
    SlotNumbers(sl, ReadBits(w, skBits));
    UnfoldBinds(w, sl, skBits, commitment, q);
  }

  // The slot for one receiver.
  method BuildHiddenReceiverSlot(cs: ConstraintSystem, commitment: Log, skBits: seq<Variable>, skProducts: seq<Variable>, precompPkj: ChordPrecomp, precompH1: ChordPrecomp, precompH2: ChordPrecomp, precompG: ChordPrecomp, curve: Curve, beta: Scalar, wit: Option<HiddenReceiverWitness>, ghost sl: Slot)
    returns (r: Result<(), R1CSError>)
    requires sl.Valid() && sl.beta == beta && sl.g.curve == curve
    requires precompPkj == Tables(sl.pk) && precompH1 == Tables(sl.h1) && precompH2 == Tables(sl.h2) && precompG == Tables(sl.g)
    requires |skBits| == K_BITS + 1 && |skProducts| == WINDOWS && Shaped(wit)
    requires cs.State().WellFormed() && AllKnown(cs.State(), skBits) && AllKnown(cs.State(), skProducts)
    requires forall w: Wires :: w.Satisfies(cs.constraints) ==> Inputs(w, skBits, skProducts)
    modifies cs
    ensures r.Err? <==> curve.IsIdentity(commitment) || (cs.proving && wit.None?)
    ensures cs.State().WellFormed() && Grown(old(cs.State()), cs.State())
    ensures r.Ok? ==>
      && cs.gates == old(cs.gates) + SlotGates(q - sl.Order()) + (if old(cs.pendingMultiplier).None? then 1 else 0)
      && (cs.pendingMultiplier.None? <==> old(cs.pendingMultiplier).Some?)
      && (old(cs.State()).Honest() && HonestSlot(sl, ReadBits(old(cs.State()).Own(), skBits), commitment, wit) ==> cs.State().Honest())
      && forall w: Wires :: w.Satisfies(cs.constraints) ==> w.Satisfies(old(cs.constraints)) && SlotBinds(w, sl, skBits, commitment)
  {
    ghost var s := cs.State();
    UnfoldHonest(sl, ReadBits(s.Own(), skBits), commitment, wit, q);
    var pad := DerivePad(cs, skBits, skProducts, precompPkj, precompH1, precompH2, curve.order, beta, wit, sl);
    if pad.Err? {
      return Err(pad.error);
    }
    var (padBits, padProducts) := pad.value;
    ghost var t := cs.State();
    if curve.IsIdentity(commitment) {
      return Err(VerificationError);
    }
    GrownBits(s, t, skBits);
    var lastWitness := if wit.Some? then Some(wit.value.padCommitment) else None;
    if t.Honest() && HonestSlot(sl, ReadBits(s.Own(), skBits), commitment, wit) {
      HonestCommitment(t.Own(), sl, skBits, padBits, commitment, wit);
    }
    var last := ChordExponentiateR1csWithResult(cs, padBits, precompG, padProducts, Some(curve.at(commitment)), lastWitness, sl.g);
    if last.Err? {
      return Err(last.error);
    }
    forall w: Wires | w.Satisfies(cs.constraints)
      ensures w.Satisfies(s.constraints) && SlotBinds(w, sl, skBits, commitment)
    {
      assert w.Satisfies(t.constraints);
      SlotFollows(w, sl, skBits, padBits, last.value.0, last.value.1, commitment);
    }
    r := Ok(());
  }

  // The prover's own wires carry the pad into the last exponentiation.
  lemma HonestCommitment(w: Wires, sl: Slot, skBits: seq<Variable>, padBits: seq<Variable>, commitment: Log, wit: Option<HiddenReceiverWitness>)
    requires sl.Valid() && |skBits| == |padBits| == K_BITS + 1 && PadDerived(w, sl, skBits, padBits)
    requires wit.Some? && HonestSlot(sl, ReadBits(w, skBits), commitment, wit)
    ensures HonestChord(sl.g, ReadBits(w, padBits), Some(sl.g.curve.at(commitment)), Some(wit.value.padCommitment))
  {
    SlotNumbers(sl, ReadBits(w, skBits));
    UnfoldHonest(sl, ReadBits(w, skBits), commitment, wit, q);
  }
}
