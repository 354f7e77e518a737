// Canonical bit decomposition and the conditional bound: paper.rs.
module BitGadgets {
  import opened Wrappers
  import opened Bits
  import opened Scalars
  import opened LinearCombinations
  import opened ConstraintSystems

  // Every canonical field element fits in this many bits.
  const K_BITS: nat := 256

  // ----- little-endian numbers -----

  function LittleEndian(bits: seq<bool>): nat {
    if |bits| == 0 then 0 else (if bits[0] then 1 else 0) + 2 * LittleEndian(bits[1..])
  }

  // Folded: a proof unrolls the number with `Numbers`.
  function FoldedNumber(bits: seq<bool>, n: nat): nat
    decreases n
  {
    if n == 0 then LittleEndian(bits) else FoldedNumber(bits, n - 1)
  }

  function Number(bits: seq<bool>): nat {
    FoldedNumber(bits, q)
  }

  lemma UnfoldNumber(bits: seq<bool>, n: nat)
    ensures FoldedNumber(bits, n) == LittleEndian(bits)
    decreases n
  {
  }

  lemma Numbers()
    ensures forall bits: seq<bool> :: Number(bits) == LittleEndian(bits)
  {
    forall bits: seq<bool>
      ensures Number(bits) == LittleEndian(bits)
    {
      UnfoldNumber(bits, q);
    }
  }

  lemma NumberEmpty()
    ensures Number([]) == 0
  {
    Numbers();
  }

  lemma {:induction false} NumberPush(bits: seq<bool>, b: bool)
    ensures Number(bits + [b]) == Number(bits) + if b then Pow2(|bits|) else 0
  {
    Numbers();
    if |bits| == 0 {
      assert (bits + [b])[1..] == [];
    } else {
      NumberPush(bits[1..], b);
      assert (bits + [b])[1..] == bits[1..] + [b];
    }
  }

  lemma {:induction false} NumberBound(bits: seq<bool>)
    ensures Number(bits) < Pow2(|bits|)
  {
    Numbers();
    if |bits| > 0 {
      NumberBound(bits[1..]);
    }
  }

  // The low n bits of x, least significant first.
  function BitsOf(x: nat, n: nat): (bits: seq<bool>)
    ensures |bits| == n
  {
    seq(n, i requires 0 <= i < n => Bit(x, i) == 1)
  }

  // Every number below 2^n has exactly one vector of n bits.
  lemma {:induction false} BitsOfNumber(bits: seq<bool>)
    ensures BitsOf(Number(bits), |bits|) == bits
  {
    Numbers();
    if |bits| > 0 {
      var x := Number(bits);
      BitsOfNumber(bits[1..]);
      forall i | 0 <= i < |bits|
        ensures BitsOf(x, |bits|)[i] == bits[i]
      {
        if i > 0 {
          ShrFromHalf(x, i - 1);
          assert BitsOf(x / 2, |bits| - 1)[i - 1] == bits[1..][i - 1];
        }
      }
    }
  }

  lemma {:induction false} NumberOfBits(x: nat, n: nat)
    requires x < Pow2(n)
    ensures Number(BitsOf(x, n)) == x
    decreases n
  {
    Numbers();
    if n > 0 {
      NumberOfBits(x / 2, n - 1);
      var upper := BitsOf(x, n)[1..];
      forall i | 0 <= i < n - 1
        ensures upper[i] == BitsOf(x / 2, n - 1)[i]
      {
        ShrFromHalf(x, i);
      }
      assert upper == BitsOf(x / 2, n - 1);
    }
  }

  // ----- bits on wires -----

  predicate IsBit(x: Scalar) {
    x == 0 || x == 1
  }

  predicate Boolean(w: Wires, vars: seq<Variable>) {
    forall i :: 0 <= i < |vars| ==> IsBit(w.Value(vars[i]))
  }

  function ReadBits(w: Wires, vars: seq<Variable>): (bits: seq<bool>)
    ensures |bits| == |vars|
  {
    seq(|vars|, i requires 0 <= i < |vars| => w.Value(vars[i]) == 1)
  }

  function OfBool(b: bool): Scalar {
    if b then 1 else 0
  }

  // The prover's assignments for these bits.
  function BitOptions(bits: seq<bool>): (r: seq<Option<Scalar>>)
    ensures |r| == |bits|
  {
    seq(|bits|, i requires 0 <= i < |bits| => Some(OfBool(bits[i])))
  }

  predicate AllAssigned(assignments: seq<Option<Scalar>>) {
    forall i :: 0 <= i < |assignments| ==> assignments[i].Some?
  }

  predicate AllKnown(s: System, vars: seq<Variable>) {
    forall i :: 0 <= i < |vars| ==> s.Known(vars[i])
  }

  // The prover's own wires hold these assignments.
  predicate Carries(s: System, vars: seq<Variable>, assignments: seq<Option<Scalar>>) {
    |vars| == |assignments| && forall i :: 0 <= i < |vars| ==> s.Known(vars[i]) && Some(s.Own().Value(vars[i])) == assignments[i]
  }

  lemma BitProduct(b: Scalar)
    ensures Mul(b, Sub(1, b)) == 0 <==> IsBit(b)
  {
    TimesUnits(Sub(1, b));
    TimesUnits(b);
    if Mul(b, Sub(1, b)) == 0 {
      NoZeroDivisors(b, Sub(1, b));
      ZeroDifference(1, b);
    } else if b == 1 {
      ZeroDifference(1, b);
    }
  }

  lemma OneMinus(v: Variable)
    ensures forall w: Wires :: w.Eval(Minus(Constant(1), Var(v))) == Sub(1, w.Value(v))
  {
    forall w: Wires
      ensures w.Eval(Minus(Constant(1), Var(v))) == Sub(1, w.Value(v))
    {
      EvalMinus(w, Constant(1), Var(v));
      EvalTerm(w, v, 1);
    }
  }

  // A wire holding 0 or 1.
  method ConstrainBit(cs: ConstraintSystem, assignment: Option<Scalar>) returns (r: Result<(Variable, Variable), R1CSError>)
    requires cs.State().WellFormed()
    modifies cs
    ensures r.Err? <==> cs.proving && assignment.None?
    ensures r.Err? ==> cs.State() == old(cs.State()) && r.error == MissingAssignment
    ensures cs.State().WellFormed() && Grown(old(cs.State()), cs.State())
    ensures r.Ok? ==>
      && cs.gates == old(cs.gates) + 1 && cs.pendingMultiplier == old(cs.pendingMultiplier)
      && cs.State().Known(r.value.0) && cs.State().Known(r.value.1)
      && (cs.proving ==> cs.State().Own().Value(r.value.0) == assignment.value)
      && (cs.State().Honest() <==> old(cs.State()).Honest() && IsBit(assignment.value))
      && forall w: Wires :: w.Satisfies(cs.constraints) <==>
        w.Satisfies(old(cs.constraints)) && IsBit(w.Value(r.value.0)) && w.Value(r.value.1) == Sub(1, w.Value(r.value.0))
  {
    var wires := cs.AllocateMultiplier(if assignment.Some? then Some((assignment.value, Sub(1, assignment.value))) else None);
    if wires.Err? {
      return Err(wires.error);
    }
    var (left, right, out) := wires.value;
    var opposite := Minus(Var(right), Minus(Constant(1), Var(left)));
    VarEquals(right, Minus(Constant(1), Var(left)));
    OneMinus(left);
    VarIsValue(out);
    cs.Constrain(opposite);
    cs.Constrain(Var(out));
    forall w: Wires
      ensures w.Value(right) == Sub(1, w.Value(left)) ==> (w.Value(out) == 0 <==> IsBit(w.Value(left)))
    {
      BitProduct(w.Value(left));
    }
    r := Ok((left, right));
  }

  // A gate multiplying the prefix flag by the next bit.
  method PrefixProduct(cs: ConstraintSystem, prefix: LinearCombination, prefixAssignment: Option<Scalar>, bit: Variable, bitAssignment: Option<Scalar>)
    returns (r: Result<Variable, R1CSError>)
    requires cs.State().WellFormed() && cs.State().KnownTerms(prefix) && cs.State().Known(bit)
    modifies cs
    ensures r.Err? <==> cs.proving && (prefixAssignment.None? || bitAssignment.None?)
    ensures r.Err? ==> cs.State() == old(cs.State()) && r.error == MissingAssignment
    ensures cs.State().WellFormed() && Grown(old(cs.State()), cs.State())
    ensures r.Ok? ==>
      && cs.gates == old(cs.gates) + 1 && cs.pendingMultiplier == old(cs.pendingMultiplier) && cs.State().Known(r.value)
      && (old(cs.State()).Honest() && prefixAssignment.value == old(cs.State()).Own().Eval(prefix) && bitAssignment.value == old(cs.State()).Own().Value(bit) ==>
          cs.State().Honest())
      && (cs.proving ==> cs.State().Own().Value(r.value) == Mul(prefixAssignment.value, bitAssignment.value))
      && forall w: Wires :: w.Satisfies(cs.constraints) ==>
        w.Satisfies(old(cs.constraints)) && w.Value(r.value) == Mul(w.Eval(prefix), w.Value(bit))
  {
    var product := if prefixAssignment.Some? && bitAssignment.Some? then Some((prefixAssignment.value, bitAssignment.value)) else None;
    ghost var s := cs.State();
    var wires := cs.AllocateMultiplier(product);
    if wires.Err? {
      return Err(wires.error);
    }
    var (left, right, out) := wires.value;
    GrownEval(s, cs.State(), prefix);
    VarEquals(left, prefix);
    VarEquals(right, Var(bit));
    VarIsValue(bit);
    cs.Constrain(Minus(Var(left), prefix));
    cs.Constrain(Minus(Var(right), Var(bit)));
    r := Ok(out);
  }

  // ----- canonical decomposition -----

  predicate AllBits(assignments: seq<Option<Scalar>>) {
    forall i :: 0 <= i < |assignments| ==> assignments[i].Some? && IsBit(assignments[i].value)
  }

  // The wires are bits, and the linear combination is the number they spell.
  predicate Spelled(w: Wires, vars: seq<Variable>, lc: LinearCombination) {
    Boolean(w, vars) && w.Eval(lc) == Red(Number(ReadBits(w, vars)))
  }

  lemma SpelledStep(w: Wires, vars: seq<Variable>, lc: LinearCombination, bit: Variable, coefficient: Scalar)
    requires Spelled(w, vars, lc) && IsBit(w.Value(bit)) && coefficient == Red(Pow2(|vars|))
    ensures Spelled(w, vars + [bit], Plus(lc, Scaled(bit, coefficient)))
  {
    var n, n' := Number(ReadBits(w, vars)), Number(ReadBits(w, vars + [bit]));
    assert n' == n + if w.Value(bit) == 1 then Pow2(|vars|) else 0 by {
      ReadPush(w, vars, bit);
    }
    assert w.Eval(Plus(lc, Scaled(bit, coefficient))) == Add(w.Eval(lc), Mul(coefficient, w.Value(bit))) by {
      EvalPlus(w, lc, Scaled(bit, coefficient));
      EvalTerm(w, bit, coefficient);
    }
    AddedBit(n, Pow2(|vars|), coefficient, w.Value(bit));
  }

  lemma ReadPush(w: Wires, vars: seq<Variable>, bit: Variable)
    ensures Number(ReadBits(w, vars + [bit])) == Number(ReadBits(w, vars)) + if w.Value(bit) == 1 then Pow2(|vars|) else 0
  {
    NumberPush(ReadBits(w, vars), w.Value(bit) == 1);
    assert ReadBits(w, vars + [bit]) == ReadBits(w, vars) + [w.Value(bit) == 1];
  }

  lemma AddedBit(n: int, power: int, coefficient: Scalar, b: Scalar)
    requires coefficient == Red(power) && IsBit(b)
    ensures Add(Red(n), Mul(coefficient, b)) == Red(n + if b == 1 then power else 0)
  {
    TimesUnits(coefficient);
    RedAdd(Red(n), n, coefficient, power);
  }

  lemma Doubled(coefficient: Scalar, j: nat)
    requires coefficient == Red(Pow2(j))
    ensures Add(coefficient, coefficient) == Red(Pow2(j + 1))
  {
    RedAdd(coefficient, Pow2(j), coefficient, Pow2(j));
  }

  // One constrained wire per assignment, and the number they spell.
  method DecomposeBits(cs: ConstraintSystem, assignments: seq<Option<Scalar>>) returns (r: Result<(seq<Variable>, LinearCombination), R1CSError>)
    requires cs.State().WellFormed()
    modifies cs
    ensures r.Err? <==> cs.proving && !AllAssigned(assignments)
    ensures r.Err? ==> r.error == MissingAssignment
    ensures cs.State().WellFormed() && Grown(old(cs.State()), cs.State())
    ensures r.Ok? ==>
      && |r.value.0| == |assignments| && AllKnown(cs.State(), r.value.0) && cs.State().KnownTerms(r.value.1)
      && cs.gates == old(cs.gates) + |assignments| && cs.pendingMultiplier == old(cs.pendingMultiplier)
      && (cs.proving ==> Carries(cs.State(), r.value.0, assignments))
      && (old(cs.State()).Honest() && AllBits(assignments) ==> cs.State().Honest())
      && forall w: Wires :: w.Satisfies(cs.constraints) ==> w.Satisfies(old(cs.constraints)) && Spelled(w, r.value.0, r.value.1)
  {
    var vars, lc, coefficient := [], [], 1;
    forall w: Wires
      ensures Spelled(w, vars, lc)
    {
      EvalEmpty(w);
      NumberEmpty();
      assert ReadBits(w, vars) == [];
    }
    for j := 0 to |assignments|
      invariant |vars| == j && AllKnown(cs.State(), vars) && cs.State().KnownTerms(lc)
      invariant cs.State().WellFormed() && Grown(old(cs.State()), cs.State())
      invariant cs.gates == old(cs.gates) + j && cs.pendingMultiplier == old(cs.pendingMultiplier)
      invariant coefficient == Red(Pow2(j))
      invariant cs.proving ==> AllAssigned(assignments[..j]) && Carries(cs.State(), vars, assignments[..j])
      invariant old(cs.State()).Honest() && AllBits(assignments) ==> cs.State().Honest()
      invariant forall w: Wires :: w.Satisfies(cs.constraints) ==> w.Satisfies(old(cs.constraints)) && Spelled(w, vars, lc)
    {
      ghost var before := cs.constraints;
      var pair := ConstrainBit(cs, assignments[j]);
      if pair.Err? {
        return Err(pair.error);
      }
      var bit := pair.value.0;
      forall w: Wires | w.Satisfies(cs.constraints)
        ensures w.Satisfies(old(cs.constraints)) && Spelled(w, vars + [bit], Plus(lc, Scaled(bit, coefficient)))
      {
        assert w.Satisfies(before);
        SpelledStep(w, vars, lc, bit, coefficient);
      }
      vars, lc := vars + [bit], Plus(lc, Scaled(bit, coefficient));
      Doubled(coefficient, j);
      coefficient := Add(coefficient, coefficient);
    }
    assert assignments[..|assignments|] == assignments;
    r := Ok((vars, lc));
  }

  // ----- the range scan, from the most significant bit down -----

  lemma {:induction false} NumberDrop(bits: seq<bool>, j: nat)
    requires j <= |bits|
    ensures Number(bits[j..]) == Shr(Number(bits), j)
  {
    Numbers();
    if j == 0 {
      assert bits[0..] == bits;
    } else {
      NumberDrop(bits, j - 1);
      assert bits[j - 1..][1..] == bits[j..];
    }
  }

  // The number's bits from j up do not exceed the modulus', and prefix flags equality.
  predicate FlagAt(w: Wires, x: nat, prefix: LinearCombination, modulus: nat, j: nat) {
    Shr(x, j) <= Shr(modulus, j) && w.Eval(prefix) == OfBool(Shr(x, j) == Shr(modulus, j))
  }

  lemma FlagAtTop(w: Wires, x: nat, modulus: nat, n: nat)
    requires Shr(x, n) == 0 && Shr(modulus, n) == 0
    ensures FlagAt(w, x, Constant(1), modulus, n)
  {
    EvalTerm(w, One, 1);
  }

  lemma BitRead(w: Wires, vars: seq<Variable>, j: nat)
    requires Boolean(w, vars) && j < |vars|
    ensures w.Value(vars[j]) == Bit(Number(ReadBits(w, vars)), j)
  {
    BitsOfNumber(ReadBits(w, vars));
    assert BitsOf(Number(ReadBits(w, vars)), |vars|)[j] == ReadBits(w, vars)[j];
  }

  lemma FlagProduct(flag: bool, b: Scalar)
    requires IsBit(b)
    ensures Mul(OfBool(flag), b) == OfBool(flag && b == 1)
    ensures Sub(OfBool(flag), OfBool(flag && b == 1)) == OfBool(flag && b == 0)
  {
    TimesUnits(b);
  }

  // Equal prefixes stay equal one bit down exactly when the bits are.
  lemma PrefixStep(x: nat, y: nat, j: nat)
    ensures Shr(x, j) == Shr(y, j) <==> Shr(x, j + 1) == Shr(y, j + 1) && Bit(x, j) == Bit(y, j)
    ensures Shr(x, j + 1) == Shr(y, j + 1) && Shr(x, j) <= Shr(y, j) ==> Bit(x, j) <= Bit(y, j)
    ensures Shr(x, j + 1) <= Shr(y, j + 1) && !(Shr(x, j + 1) == Shr(y, j + 1) && Bit(x, j) > Bit(y, j)) ==> Shr(x, j) <= Shr(y, j)
  {
  }

  // The flag passes to the next bit down.
  lemma FlagStep(w: Wires, x: nat, prefix: LinearCombination, modulus: nat, j: nat, bit: Variable, product: Variable)
    requires FlagAt(w, x, prefix, modulus, j + 1) && w.Value(bit) == Bit(x, j)
    requires w.Value(product) == Mul(w.Eval(prefix), w.Value(bit))
    ensures Bit(modulus, j) == 1 ==> FlagAt(w, x, Var(product), modulus, j)
    ensures Bit(modulus, j) == 0 && w.Value(product) == 0 ==> FlagAt(w, x, Minus(prefix, Var(product)), modulus, j)
    ensures Bit(modulus, j) == 0 && Shr(x, j) <= Shr(modulus, j) ==> w.Value(product) == 0
  {
    PrefixStep(x, modulus, j);
    FlagProducts(w, prefix, bit, product, Shr(x, j + 1) == Shr(modulus, j + 1));
  }

  lemma FlagProducts(w: Wires, prefix: LinearCombination, bit: Variable, product: Variable, equal: bool)
    requires w.Eval(prefix) == OfBool(equal) && IsBit(w.Value(bit)) && w.Value(product) == Mul(w.Eval(prefix), w.Value(bit))
    ensures w.Eval(Var(product)) == w.Value(product) == OfBool(equal && w.Value(bit) == 1)
    ensures w.Eval(Minus(prefix, Var(product))) == OfBool(equal && w.Value(bit) == 0)
  {
    FlagProduct(equal, w.Value(bit));
    EvalTerm(w, product, 1);
    EvalMinus(w, prefix, Var(product));
  }

  lemma {:induction false} ShrMonotone(x: nat, y: nat, j: nat)
    requires x <= y
    ensures Shr(x, j) <= Shr(y, j)
  {
    if j > 0 {
      ShrMonotone(x, y, j - 1);
    }
  }

  // What the constraints of a canonical decomposition say.
  predicate Canonical(w: Wires, vars: seq<Variable>, k: Variable, modulus: nat) {
    && Boolean(w, vars)
    && Number(ReadBits(w, vars)) < modulus
    && w.Value(k) == Red(Number(ReadBits(w, vars)))
  }

  // The next flag, with the assignment the prover keeps for it.
  method ScanStep(cs: ConstraintSystem, prefix: LinearCombination, prefixAssignment: Option<Scalar>, bit: Variable, bitAssignment: Option<Scalar>, modulusBit: bool)
    returns (r: Result<Variable, R1CSError>, prefix': LinearCombination, prefixAssignment': Option<Scalar>)
    requires cs.State().WellFormed() && cs.State().KnownTerms(prefix) && cs.State().Known(bit)
    modifies cs
    ensures r.Err? <==> cs.proving && (prefixAssignment.None? || bitAssignment.None?)
    ensures r.Err? ==> r.error == MissingAssignment
    ensures cs.State().WellFormed() && Grown(old(cs.State()), cs.State())
    ensures r.Ok? ==>
      && cs.gates == old(cs.gates) + 1 && cs.pendingMultiplier == old(cs.pendingMultiplier)
      && cs.State().Known(r.value) && cs.State().KnownTerms(prefix')
      && prefix' == (if modulusBit then Var(r.value) else Minus(prefix, Var(r.value)))
      && (old(cs.State()).Honest() && prefixAssignment.value == old(cs.State()).Own().Eval(prefix) && bitAssignment.value == old(cs.State()).Own().Value(bit) ==>
          cs.State().Honest())
      && (cs.proving && prefixAssignment.value == old(cs.State()).Own().Eval(prefix) ==> prefixAssignment' == Some(cs.State().Own().Eval(prefix')))
      && forall w: Wires :: w.Satisfies(cs.constraints) ==>
        w.Satisfies(old(cs.constraints)) && w.Value(r.value) == Mul(w.Eval(prefix), w.Value(bit))
  {
    prefix', prefixAssignment' := prefix, prefixAssignment;
    ghost var s := cs.State();
    r := PrefixProduct(cs, prefix, prefixAssignment, bit, bitAssignment);
    if r.Err? {
      return;
    }
    GrownEval(s, cs.State(), prefix);
    var both := prefixAssignment.Some? && bitAssignment.Some?;
    EvalTerm(cs.State().Own(), r.value, 1);
    if modulusBit {
      prefix' := Var(r.value);
      prefixAssignment' := if both then Some(Mul(prefixAssignment.value, bitAssignment.value)) else None;
    } else {
      prefix' := Minus(prefix, Var(r.value));
      prefixAssignment' := if both then Some(Mul(prefixAssignment.value, Sub(1, bitAssignment.value))) else None;
      EvalMinus(cs.State().Own(), prefix, Var(r.value));
      if both {
        TimesComplement(prefixAssignment.value, bitAssignment.value);
      }
    }
  }

  lemma TimesComplement(e: Scalar, b: Scalar)
    ensures Mul(e, Sub(1, b)) == Sub(e, Mul(e, b))
  {
    RedMul(e, e, Sub(1, b), 1 - b);
    TimesDistributes(e, 1, b);
    TimesUnits(e);
    RedSub(e, e, Times(e, b), Mul(e, b));
  }

  lemma GrownBits(s: System, s': System, vars: seq<Variable>)
    requires Grown(s, s') && AllKnown(s, vars)
    ensures AllKnown(s', vars) && ReadBits(s'.Own(), vars) == ReadBits(s.Own(), vars)
  {
  }

  // What a step of the scan leaves for w.
  predicate ScanResult(w: Wires, vars: seq<Variable>, modulus: nat, j: nat, product: Variable, prefix: LinearCombination) {
    var x := Number(ReadBits(w, vars));
    && (Bit(modulus, j) == 1 || w.Value(product) == 0 ==> FlagAt(w, x, prefix, modulus, j))
    && (Bit(modulus, j) != 1 && x < modulus ==> w.Value(product) == 0)
  }

  lemma ScanStepped(w: Wires, vars: seq<Variable>, prefix: LinearCombination, modulus: nat, j: nat, product: Variable)
    requires Boolean(w, vars) && j < |vars| && FlagAt(w, Number(ReadBits(w, vars)), prefix, modulus, j + 1)
    requires w.Value(product) == Mul(w.Eval(prefix), w.Value(vars[j]))
    ensures ScanResult(w, vars, modulus, j, product, if Bit(modulus, j) == 1 then Var(product) else Minus(prefix, Var(product)))
  {
    var x := Number(ReadBits(w, vars));
    BitRead(w, vars, j);
    FlagStep(w, x, prefix, modulus, j, vars[j], product);
    if x < modulus {
      ShrMonotone(x, modulus, j);
    }
  }

  // The range scan: the bits' number is below the modulus.
  method ScanBelow(cs: ConstraintSystem, vars: seq<Variable>, assignments: seq<Option<Scalar>>, modulus: nat) returns (r: Result<(), R1CSError>)
    requires cs.State().WellFormed() && |vars| == |assignments| && AllKnown(cs.State(), vars) && modulus < Pow2(|vars|)
    requires cs.proving ==> Carries(cs.State(), vars, assignments)
    requires forall w: Wires :: w.Satisfies(cs.constraints) ==> Boolean(w, vars)
    modifies cs
    ensures r.Ok?
    ensures cs.State().WellFormed() && Grown(old(cs.State()), cs.State())
    ensures cs.gates == old(cs.gates) + |vars| && cs.pendingMultiplier == old(cs.pendingMultiplier)
    ensures old(cs.State()).Honest() && Number(ReadBits(old(cs.State()).Own(), vars)) < modulus ==> cs.State().Honest()
    ensures forall w: Wires :: w.Satisfies(cs.constraints) ==>
      w.Satisfies(old(cs.constraints)) && Number(ReadBits(w, vars)) < modulus
  {
    ghost var s := cs.State();
    ghost var own := Number(ReadBits(s.Own(), vars));
    var prefix, prefixAssignment := Constant(1), Some(1 as Scalar);
    forall w: Wires
      ensures FlagAt(w, Number(ReadBits(w, vars)), prefix, modulus, |vars|)
    {
      NumberBound(ReadBits(w, vars));
      ShrZero(Number(ReadBits(w, vars)), |vars|);
      ShrZero(modulus, |vars|);
      FlagAtTop(w, Number(ReadBits(w, vars)), modulus, |vars|);
    }
    EvalTerm(s.Own(), One, 1);
    for j := |vars| downto 0
      invariant cs.State().WellFormed() && Grown(s, cs.State()) && cs.State().KnownTerms(prefix)
      invariant cs.gates == s.gates + (|vars| - j) && cs.pendingMultiplier == s.pending
      invariant cs.proving ==> prefixAssignment == Some(cs.State().Own().Eval(prefix))
      invariant s.Honest() && own < modulus ==> cs.State().Honest()
      invariant forall w: Wires :: w.Satisfies(cs.constraints) ==>
        w.Satisfies(s.constraints) && FlagAt(w, Number(ReadBits(w, vars)), prefix, modulus, j)
    {
      ghost var before := cs.constraints;
      var modulusBit := Bit(modulus, j) == 1;
      var product, prefix', prefixAssignment' := ScanStep(cs, prefix, prefixAssignment, vars[j], assignments[j], modulusBit);
      forall w: Wires | w.Satisfies(cs.constraints)
        ensures w.Satisfies(s.constraints)
        ensures ScanResult(w, vars, modulus, j, product.value, prefix')
      {
        assert w.Satisfies(before);
        ScanStepped(w, vars, prefix, modulus, j, product.value);
      }
      if !modulusBit {
        ghost var t := cs.State();
        GrownBits(s, t, vars);
        VarIsValue(product.value);
        cs.Constrain(Var(product.value));
        GrownEval(t, cs.State(), prefix');
      }
      prefix, prefixAssignment := prefix', prefixAssignment';
    }
    GrownBits(s, cs.State(), vars);
    cs.Constrain(prefix);
    r := Ok(());
  }

  // Decomposes k. A satisfying assignment holds exactly the bits of a number below the
  // modulus that reduces to k, and the prover's assignment of those bits satisfies.
  method BitDecomposeBounded(cs: ConstraintSystem, k: Variable, assignments: seq<Option<Scalar>>, modulus: nat) returns (r: Result<seq<Variable>, R1CSError>)
    requires cs.State().WellFormed() && cs.State().Known(k) && modulus < Pow2(K_BITS)
    modifies cs
    ensures r.Err? <==> |assignments| != K_BITS + 1 || (cs.proving && !AllAssigned(assignments))
    ensures |assignments| != K_BITS + 1 ==> r.error == FormatError && cs.State() == old(cs.State())
    ensures cs.State().WellFormed() && Grown(old(cs.State()), cs.State())
    ensures r.Ok? ==>
      && |r.value| == K_BITS + 1 && AllKnown(cs.State(), r.value)
      && cs.gates == old(cs.gates) + 2 * (K_BITS + 1) && cs.pendingMultiplier == old(cs.pendingMultiplier)
      && (cs.proving ==> Carries(cs.State(), r.value, assignments))
      && (old(cs.State()).Honest() && HonestBits(assignments, old(cs.State()).Own().Value(k), modulus) ==> cs.State().Honest())
      && forall w: Wires :: w.Satisfies(cs.constraints) ==> w.Satisfies(old(cs.constraints)) && Canonical(w, r.value, k, modulus)
  {
    if |assignments| != K_BITS + 1 {
      return Err(FormatError);
    }
    Pow2Monotone(K_BITS, K_BITS + 1);
    ghost var s := cs.State();
    r := Reconstruct(cs, k, assignments, modulus);
    if r.Err? {
      return;
    }
    var scan := ScanBelow(cs, r.value, assignments, modulus);
  }

  // Bits that add up to k in the field, before the range scan.
  method Reconstruct(cs: ConstraintSystem, k: Variable, assignments: seq<Option<Scalar>>, ghost modulus: nat) returns (r: Result<seq<Variable>, R1CSError>)
    requires cs.State().WellFormed() && cs.State().Known(k)
    modifies cs
    ensures r.Err? <==> cs.proving && !AllAssigned(assignments)
    ensures r.Err? ==> r.error == MissingAssignment
    ensures cs.State().WellFormed() && Grown(old(cs.State()), cs.State())
    ensures r.Ok? ==>
      && |r.value| == |assignments| && AllKnown(cs.State(), r.value)
      && cs.gates == old(cs.gates) + |assignments| && cs.pendingMultiplier == old(cs.pendingMultiplier)
      && (cs.proving ==> Carries(cs.State(), r.value, assignments))
      && (old(cs.State()).Honest() && HonestBits(assignments, old(cs.State()).Own().Value(k), modulus) ==>
          cs.State().Honest() && Number(ReadBits(cs.State().Own(), r.value)) < modulus)
      && forall w: Wires :: w.Satisfies(cs.constraints) ==>
        w.Satisfies(old(cs.constraints)) && Boolean(w, r.value) && w.Value(k) == Red(Number(ReadBits(w, r.value)))
  {
    ghost var s := cs.State();
    var bits := DecomposeBits(cs, assignments);
    if bits.Err? {
      return Err(bits.error);
    }
    var (vars, lc) := bits.value;
    ghost var t := cs.State();
    if s.Honest() && HonestBits(assignments, s.Own().Value(k), modulus) {
      HonestSum(t, vars, lc, assignments, k, modulus);
    }
    EqualsVar(lc, k);
    cs.Constrain(Minus(lc, Var(k)));
    GrownBits(t, cs.State(), vars);
    r := Ok(vars);
  }

  // The bits of a number below the modulus whose residue is k.
  ghost predicate HonestBits(assignments: seq<Option<Scalar>>, k: Scalar, modulus: nat) {
    exists bits: seq<bool> :: assignments == BitOptions(bits) && Number(bits) < modulus && Red(Number(bits)) == k
  }

  lemma CarriedBits(s: System, vars: seq<Variable>, bits: seq<bool>)
    requires Carries(s, vars, BitOptions(bits))
    ensures ReadBits(s.Own(), vars) == bits && Boolean(s.Own(), vars)
  {
    forall i | 0 <= i < |vars|
      ensures s.Own().Value(vars[i]) == OfBool(bits[i])
    {
      assert Some(s.Own().Value(vars[i])) == BitOptions(bits)[i];
    }
  }

  lemma HonestSum(s: System, vars: seq<Variable>, lc: LinearCombination, assignments: seq<Option<Scalar>>, k: Variable, modulus: nat)
    requires Carries(s, vars, assignments) && HonestBits(assignments, s.Own().Value(k), modulus)
    ensures AllBits(assignments) && Boolean(s.Own(), vars) && Number(ReadBits(s.Own(), vars)) < modulus
    ensures Spelled(s.Own(), vars, lc) ==> s.Own().Eval(lc) == s.Own().Value(k)
  {
    var bits: seq<bool> :| assignments == BitOptions(bits) && Number(bits) < modulus && Red(Number(bits)) == s.Own().Value(k);
    CarriedBits(s, vars, bits);
  }

  // A canonical field element has exactly one satisfying bit vector.
  lemma CanonicalBitsUnique(w: Wires, w': Wires, vars: seq<Variable>, k: Variable, modulus: nat)
    requires Canonical(w, vars, k, modulus) && Canonical(w', vars, k, modulus)
    requires modulus <= q && w.Value(k) == w'.Value(k)
    ensures Number(ReadBits(w, vars)) == w.Value(k) && ReadBits(w, vars) == ReadBits(w', vars) == BitsOf(w.Value(k), |vars|)
  {
    BitsOfNumber(ReadBits(w, vars));
    BitsOfNumber(ReadBits(w', vars));
  }

  // And that vector exists.
  lemma CanonicalBitsExist(k: Scalar, modulus: nat)
    requires k < modulus < Pow2(K_BITS)
    ensures HonestBits(BitOptions(BitsOf(k, K_BITS + 1)), k, modulus)
  {
    Pow2Monotone(K_BITS, K_BITS + 1);
    NumberOfBits(k, K_BITS + 1);
  }

  // Without the range scan, k and k + q would spell the same field element.
  lemma AliasWithoutScan(k: nat)
    requires k + q < Pow2(K_BITS + 1) && k < q
    ensures BitsOf(k, K_BITS + 1) != BitsOf(k + q, K_BITS + 1)
    ensures Red(Number(BitsOf(k, K_BITS + 1))) == Red(Number(BitsOf(k + q, K_BITS + 1)))
  {
    NumberOfBits(k, K_BITS + 1);
    NumberOfBits(k + q, K_BITS + 1);
    RedEq(k, k + q, -1);
  }

  // ----- the conditional bound -----

  function CountTrue(bits: seq<bool>): nat {
    if |bits| == 0 then 0 else CountTrue(bits[..|bits| - 1]) + if bits[|bits| - 1] then 1 else 0
  }

  lemma {:induction false} NoneTrue(bits: seq<bool>)
    ensures CountTrue(bits) <= |bits|
    ensures CountTrue(bits) == 0 <==> forall i :: 0 <= i < |bits| ==> !bits[i]
  {
    if |bits| > 0 {
      var init := bits[..|bits| - 1];
      NoneTrue(init);
      assert forall i :: 0 <= i < |init| ==> init[i] == bits[i];
    }
  }

  lemma {:induction false} ZeroNumber(bits: seq<bool>)
    ensures Number(bits) == 0 <==> forall i :: 0 <= i < |bits| ==> !bits[i]
  {
    Numbers();
    if |bits| > 0 {
      ZeroNumber(bits[1..]);
      assert forall i :: 0 <= i < |bits| - 1 ==> bits[1..][i] == bits[i + 1];
      assert Number(bits) == 0 ==> forall i :: 0 < i < |bits| ==> bits[i] == bits[1..][i - 1];
    }
  }

  // One past the highest set bit below n.
  function LowerBitsStart(bound: nat, n: nat): (l: nat)
    ensures l <= n
  {
    if n == 0 then 0 else if Bit(bound, n - 1) == 1 then n else LowerBitsStart(bound, n - 1)
  }

  lemma {:induction false} NoBitsAbove(bound: nat, n: nat)
    requires Shr(bound, n) == 0
    ensures Shr(bound, LowerBitsStart(bound, n)) == 0
  {
    if n > 0 && Bit(bound, n - 1) == 0 {
      NoBitsAbove(bound, n - 1);
    }
  }

  // The sum of wires, as the gadget folds it.
  function SumOfVars(vars: seq<Variable>): LinearCombination {
    if |vars| == 0 then [] else Plus(SumOfVars(vars[..|vars| - 1]), Var(vars[|vars| - 1]))
  }

  lemma {:induction false} SumOfVarsKnown(s: System, vars: seq<Variable>)
    requires AllKnown(s, vars)
    ensures s.KnownTerms(SumOfVars(vars))
  {
    if |vars| > 0 {
      SumOfVarsKnown(s, vars[..|vars| - 1]);
    }
  }

  lemma {:induction false} SumOfVarsCounts(w: Wires, vars: seq<Variable>)
    requires Boolean(w, vars)
    ensures w.Eval(SumOfVars(vars)) == Red(CountTrue(ReadBits(w, vars)))
  {
    if |vars| == 0 {
      EvalEmpty(w);
    } else {
      var n := |vars| - 1;
      SumOfVarsCounts(w, vars[..n]);
      assert ReadBits(w, vars)[..n] == ReadBits(w, vars[..n]);
      EvalPlus(w, SumOfVars(vars[..n]), Var(vars[n]));
      EvalTerm(w, vars[n], 1);
      RedAdd(Red(CountTrue(ReadBits(w, vars[..n]))), CountTrue(ReadBits(w, vars[..n])), w.Value(vars[n]), w.Value(vars[n]));
    }
  }

  // The sum of the high bits vanishes exactly when they are all zero.
  lemma HighSumVanishes(w: Wires, vars: seq<Variable>, l: nat)
    requires Boolean(w, vars) && l <= |vars| < q
    ensures w.Eval(SumOfVars(vars[l..])) == 0 <==> Shr(Number(ReadBits(w, vars)), l) == 0
  {
    var bits := ReadBits(w, vars);
    assert ReadBits(w, vars[l..]) == bits[l..];
    SumOfVarsCounts(w, vars[l..]);
    NoneTrue(bits[l..]);
    ZeroNumber(bits[l..]);
    NumberDrop(bits, l);
  }

  // One gate: the condition or lc is zero.
  method ConstrainZeroWhen(cs: ConstraintSystem, condition: Variable, lc: LinearCombination)
    requires cs.State().WellFormed() && cs.State().Known(condition) && cs.State().KnownTerms(lc)
    modifies cs
    ensures cs.State().WellFormed() && Grown(old(cs.State()), cs.State())
    ensures cs.gates == old(cs.gates) + 1 && cs.pendingMultiplier == old(cs.pendingMultiplier)
    ensures cs.State().Honest() <==>
      old(cs.State()).Honest() && (old(cs.State()).Own().Value(condition) == 0 || old(cs.State()).Own().Eval(lc) == 0)
    ensures forall w: Wires :: w.Satisfies(cs.constraints) ==>
      w.Satisfies(old(cs.constraints)) && (w.Value(condition) == 0 || w.Eval(lc) == 0)
  {
    ghost var s := cs.State();
    var l, r, violation := cs.Multiply(Var(condition), lc);
    ghost var t := cs.State();
    GrownEval(s, t, lc);
    VarIsValue(condition);
    VarIsValue(violation);
    forall w: Wires
      ensures w.Value(violation) == 0 <==> w.Value(l) == 0 || w.Value(r) == 0
    {
      ZeroProduct(w.Value(l), w.Value(r));
    }
    cs.Constrain(Var(violation));
  }

  lemma ZeroProduct(x: Scalar, y: Scalar)
    ensures Mul(x, y) == 0 <==> x == 0 || y == 0
  {
    TimesUnits(x);
    TimesUnits(y);
    if Mul(x, y) == 0 {
      NoZeroDivisors(x, y);
    }
  }

  function ZeroBits(bound: nat, l: nat): nat {
    if l == 0 then 0 else ZeroBits(bound, l - 1) + 1 - Bit(bound, l - 1)
  }

  // The gates of the conditional bound over n bits.
  function GatesOfBound(bound: nat, n: nat): nat {
    var l := LowerBitsStart(bound, n);
    (if l < n then 1 else 0) + l + ZeroBits(bound, l) + 1
  }

  // Folded, so that the scan of a fixed number of bits is not unrolled.
  function FoldedBoundGates(bound: nat, n: nat, depth: nat): nat
    decreases depth
  {
    if depth == 0 then GatesOfBound(bound, n) else FoldedBoundGates(bound, n, depth - 1)
  }

  function BoundGates(bound: nat, n: nat): nat {
    FoldedBoundGates(bound, n, q)
  }

  lemma UnfoldBoundGates(bound: nat, n: nat, depth: nat)
    ensures FoldedBoundGates(bound, n, depth) == GatesOfBound(bound, n)
    decreases depth
  {
  }

  // Whether the conditional bound holds of w.
  predicate BoundWhen(w: Wires, vars: seq<Variable>, bound: nat, condition: Variable) {
    w.Value(condition) != 0 ==> Number(ReadBits(w, vars)) < bound
  }

  // The scan's state for w, when the condition holds.
  predicate FlagWhen(w: Wires, vars: seq<Variable>, condition: Variable, prefix: LinearCombination, bound: nat, j: nat) {
    w.Value(condition) != 0 ==> FlagAt(w, Number(ReadBits(w, vars)), prefix, bound, j)
  }

  // One bit of the conditional scan.
  method ScanBitWhen(cs: ConstraintSystem, vars: seq<Variable>, assignments: seq<Option<Scalar>>, bound: nat, j: nat, condition: Variable, prefix: LinearCombination, prefixAssignment: Option<Scalar>)
    returns (prefix': LinearCombination, prefixAssignment': Option<Scalar>)
    requires cs.State().WellFormed() && cs.State().Known(condition) && AllKnown(cs.State(), vars) && j < |vars| == |assignments|
    requires cs.State().KnownTerms(prefix)
    requires cs.proving ==> Carries(cs.State(), vars, assignments) && prefixAssignment == Some(cs.State().Own().Eval(prefix))
    requires forall w: Wires :: w.Satisfies(cs.constraints) ==> Boolean(w, vars) && FlagWhen(w, vars, condition, prefix, bound, j + 1)
    modifies cs
    ensures cs.State().WellFormed() && Grown(old(cs.State()), cs.State()) && cs.State().KnownTerms(prefix')
    ensures cs.gates == old(cs.gates) + 2 - Bit(bound, j) && cs.pendingMultiplier == old(cs.pendingMultiplier)
    ensures cs.proving ==> prefixAssignment' == Some(cs.State().Own().Eval(prefix'))
    ensures old(cs.State()).Honest() && BoundWhen(old(cs.State()).Own(), vars, bound, condition) ==> cs.State().Honest()
    ensures forall w: Wires :: w.Satisfies(cs.constraints) ==> w.Satisfies(old(cs.constraints)) && FlagWhen(w, vars, condition, prefix', bound, j)
  {
    ghost var s := cs.State();
    var boundBit := Bit(bound, j) == 1;
    var product;
    product, prefix', prefixAssignment' := ScanStep(cs, prefix, prefixAssignment, vars[j], assignments[j], boundBit);
    forall w: Wires | w.Satisfies(cs.constraints)
      ensures w.Value(condition) != 0 ==> ScanResult(w, vars, bound, j, product.value, prefix')
    {
      assert w.Satisfies(s.constraints);
      if w.Value(condition) != 0 {
        ScanStepped(w, vars, prefix, bound, j, product.value);
      }
    }
    if !boundBit {
      ghost var t := cs.State();
      GrownWhen(s, t, vars, bound, condition);
      VarIsValue(product.value);
      ConstrainZeroWhen(cs, condition, Var(product.value));
      GrownEval(t, cs.State(), prefix');
    }
  }

  // The scan over the low l bits, once the others are known to be zero.
  method ScanBelowWhen(cs: ConstraintSystem, vars: seq<Variable>, assignments: seq<Option<Scalar>>, bound: nat, l: nat, condition: Variable)
    requires cs.State().WellFormed() && cs.State().Known(condition) && AllKnown(cs.State(), vars) && l <= |vars| == |assignments|
    requires Shr(bound, l) == 0
    requires cs.proving ==> Carries(cs.State(), vars, assignments)
    requires forall w: Wires :: w.Satisfies(cs.constraints) ==>
      Boolean(w, vars) && (w.Value(condition) != 0 ==> Shr(Number(ReadBits(w, vars)), l) == 0)
    modifies cs
    ensures cs.State().WellFormed() && Grown(old(cs.State()), cs.State())
    ensures cs.gates == old(cs.gates) + l + ZeroBits(bound, l) + 1 && cs.pendingMultiplier == old(cs.pendingMultiplier)
    ensures old(cs.State()).Honest() && BoundWhen(old(cs.State()).Own(), vars, bound, condition) ==> cs.State().Honest()
    ensures forall w: Wires :: w.Satisfies(cs.constraints) ==> w.Satisfies(old(cs.constraints)) && BoundWhen(w, vars, bound, condition)
  {
    ghost var s := cs.State();
    ghost var fits := BoundWhen(s.Own(), vars, bound, condition);
    var prefix, prefixAssignment := Constant(1), Some(1 as Scalar);
    forall w: Wires | w.Satisfies(cs.constraints)
      ensures FlagWhen(w, vars, condition, prefix, bound, l)
    {
      if w.Value(condition) != 0 {
        FlagAtTop(w, Number(ReadBits(w, vars)), bound, l);
      }
    }
    EvalTerm(s.Own(), One, 1);
    for j := l downto 0
      invariant cs.State().WellFormed() && Grown(s, cs.State()) && cs.State().KnownTerms(prefix)
      invariant cs.gates == s.gates + (l - j) + ZeroBits(bound, l) - ZeroBits(bound, j) && cs.pendingMultiplier == s.pending
      invariant cs.proving ==> prefixAssignment == Some(cs.State().Own().Eval(prefix))
      invariant s.Honest() && fits ==> cs.State().Honest()
      invariant forall w: Wires :: w.Satisfies(cs.constraints) ==> w.Satisfies(s.constraints) && FlagWhen(w, vars, condition, prefix, bound, j)
    {
      GrownWhen(s, cs.State(), vars, bound, condition);
      prefix, prefixAssignment := ScanBitWhen(cs, vars, assignments, bound, j, condition, prefix, prefixAssignment);
    }
    GrownWhen(s, cs.State(), vars, bound, condition);
    ConstrainZeroWhen(cs, condition, prefix);
  }

  lemma GrownWhen(s: System, s': System, vars: seq<Variable>, bound: nat, condition: Variable)
    requires Grown(s, s') && AllKnown(s, vars) && s.Known(condition)
    ensures AllKnown(s', vars) && s'.Known(condition)
    ensures BoundWhen(s'.Own(), vars, bound, condition) <==> BoundWhen(s.Own(), vars, bound, condition)
  {
    GrownBits(s, s', vars);
  }

  // The high-bit sum of a satisfying assignment below the bound is zero, and back.
  lemma HighBits(vars: seq<Variable>, l: nat, n: nat, bound: nat)
    requires l <= n == |vars| < q && Shr(bound, l) == 0
    ensures forall w: Wires :: Boolean(w, vars) ==>
      && (w.Eval(SumOfVars(vars[l..])) == 0 <==> Shr(Number(ReadBits(w, vars)), l) == 0)
      && (Number(ReadBits(w, vars)) < bound ==> Shr(Number(ReadBits(w, vars)), l) == 0)
      && Shr(Number(ReadBits(w, vars)), n) == 0
  {
    forall w: Wires | Boolean(w, vars)
      ensures w.Eval(SumOfVars(vars[l..])) == 0 <==> Shr(Number(ReadBits(w, vars)), l) == 0
      ensures Number(ReadBits(w, vars)) < bound ==> Shr(Number(ReadBits(w, vars)), l) == 0
      ensures Shr(Number(ReadBits(w, vars)), n) == 0
    {
      HighSumVanishes(w, vars, l);
      NumberBound(ReadBits(w, vars));
      ShrZero(Number(ReadBits(w, vars)), n);
      if Number(ReadBits(w, vars)) < bound {
        ShrMonotone(Number(ReadBits(w, vars)), bound, l);
      }
    }
  }

  // Bits already constrained to 0 or 1 spell a number below the bound, if the
  // condition holds.
  method ConstrainBitsLtBoundWhen(cs: ConstraintSystem, vars: seq<Variable>, assignments: seq<Option<Scalar>>, bound: nat, condition: Variable) returns (r: Result<(), R1CSError>)
    requires cs.State().WellFormed() && cs.State().Known(condition) && AllKnown(cs.State(), vars)
    requires bound < Pow2(K_BITS) && K_BITS + 1 < q
    requires cs.proving && |vars| == |assignments| ==> Carries(cs.State(), vars, assignments)
    requires forall w: Wires :: w.Satisfies(cs.constraints) ==> Boolean(w, vars)
    modifies cs
    ensures r.Err? <==> |vars| != K_BITS + 1 || |assignments| != K_BITS + 1
    ensures r.Err? ==> r.error == FormatError && cs.State() == old(cs.State())
    ensures cs.State().WellFormed() && Grown(old(cs.State()), cs.State())
    ensures r.Ok? ==>
      && cs.gates == old(cs.gates) + BoundGates(bound, K_BITS + 1) && cs.pendingMultiplier == old(cs.pendingMultiplier)
      && (old(cs.State()).Honest() && BoundWhen(old(cs.State()).Own(), vars, bound, condition) ==> cs.State().Honest())
      && forall w: Wires :: w.Satisfies(cs.constraints) ==> w.Satisfies(old(cs.constraints)) && BoundWhen(w, vars, bound, condition)
  {
    if |vars| != K_BITS + 1 || |assignments| != K_BITS + 1 {
      return Err(FormatError);
    }
    var n := K_BITS + 1;
    var l := LowerBitsStart(bound, n);
    Pow2Monotone(K_BITS, n);
    ShrZero(bound, n);
    NoBitsAbove(bound, n);
    UnfoldBoundGates(bound, n, q);
    ghost var s := cs.State();
    HighBits(vars, l, n, bound);
    if l < n {
      SumOfVarsKnown(s, vars[l..]);
      ConstrainZeroWhen(cs, condition, SumOfVars(vars[l..]));
    }
    GrownWhen(s, cs.State(), vars, bound, condition);
    ScanBelowWhen(cs, vars, assignments, bound, l, condition);
    r := Ok(());
  }
}
