// Chord-rule exponentiation in the circuit: paper.rs.
module ChordGadget {
  import opened Wrappers
  import opened Bits
  import opened Modular
  import opened Scalars
  import opened LinearCombinations
  import opened ConstraintSystems
  import opened BitGadgets
  import opened Chords

  // A pair of linear combinations standing for affine coordinates.
  datatype Pair = Pair(x: LinearCombination, y: LinearCombination)

  function At(w: Wires, p: Pair): Affine {
    Affine(w.Eval(p.x), w.Eval(p.y))
  }

  predicate KnownPair(s: System, p: Pair) {
    s.KnownTerms(p.x) && s.KnownTerms(p.y)
  }

  lemma GrownPair(s: System, s': System, p: Pair)
    requires Grown(s, s') && KnownPair(s, p)
    ensures KnownPair(s', p) && At(s'.Own(), p) == At(s.Own(), p)
  {
    GrownEval(s, s', p.x);
    GrownEval(s, s', p.y);
  }

  // ----- the selected delta -----

  function Delta0(k0: Variable, precomp: ChordPrecomp): Pair {
    Pair(Plus(Constant(precomp.c0.x), Scaled(k0, Sub(precomp.d0.x, precomp.c0.x))),
         Plus(Constant(precomp.c0.y), Scaled(k0, Sub(precomp.d0.y, precomp.c0.y))))
  }

  function WindowSum(s0: Variable, s1: Variable, both: Variable, q00: Scalar, q10: Scalar, q01: Scalar, q11: Scalar): LinearCombination {
    Plus(Plus(Plus(Constant(q00), Scaled(s0, Sub(q10, q00))), Scaled(s1, Sub(q01, q00))), Scaled(both, Add(Sub(Sub(q11, q10), q01), q00)))
  }

  function WindowDeltaPair(s0: Variable, s1: Variable, both: Variable, t: Window): Pair {
    Pair(WindowSum(s0, s1, both, t.q00.x, t.q10.x, t.q01.x, t.q11.x), WindowSum(s0, s1, both, t.q00.y, t.q10.y, t.q01.y, t.q11.y))
  }

  function Select(b0: bool, b1: bool, t: Window): Affine {
    if b0 then (if b1 then t.q11 else t.q10) else (if b1 then t.q01 else t.q00)
  }

  lemma SelectOne(w: Wires, b: Variable, x0: Scalar, x1: Scalar)
    requires IsBit(w.Value(b))
    ensures w.Eval(Plus(Constant(x0), Scaled(b, Sub(x1, x0)))) == if w.Value(b) == 1 then x1 else x0
  {
    EvalPlus(w, Constant(x0), Scaled(b, Sub(x1, x0)));
    EvalTerm(w, One, x0);
    EvalTerm(w, b, Sub(x1, x0));
    TimesUnits(Sub(x1, x0));
    RedAdd(x0, x0, Sub(x1, x0), x1 - x0);
  }

  lemma WindowSumIs(w: Wires, s0: Variable, s1: Variable, both: Variable, q00: Scalar, q10: Scalar, q01: Scalar, q11: Scalar)
    ensures w.Eval(WindowSum(s0, s1, both, q00, q10, q01, q11)) ==
      Add(Add(Add(q00, Mul(Sub(q10, q00), w.Value(s0))), Mul(Sub(q01, q00), w.Value(s1))), Mul(Add(Sub(Sub(q11, q10), q01), q00), w.Value(both)))
  {
    var first := Plus(Constant(q00), Scaled(s0, Sub(q10, q00)));
    EvalPlus(w, Constant(q00), Scaled(s0, Sub(q10, q00)));
    EvalPlus(w, first, Scaled(s1, Sub(q01, q00)));
    EvalPlus(w, Plus(first, Scaled(s1, Sub(q01, q00))), Scaled(both, Add(Sub(Sub(q11, q10), q01), q00)));
    EvalTerm(w, One, q00);
    EvalTerm(w, s0, Sub(q10, q00));
    EvalTerm(w, s1, Sub(q01, q00));
    EvalTerm(w, both, Add(Sub(Sub(q11, q10), q01), q00));
  }

  // The two-bit linear combination picks the candidate the bits name.
  lemma WindowSelects(w: Wires, s0: Variable, s1: Variable, both: Variable, q00: Scalar, q10: Scalar, q01: Scalar, q11: Scalar)
    requires IsBit(w.Value(s0)) && IsBit(w.Value(s1)) && w.Value(both) == Mul(w.Value(s0), w.Value(s1))
    ensures w.Eval(WindowSum(s0, s1, both, q00, q10, q01, q11)) ==
      if w.Value(s0) == 1 then (if w.Value(s1) == 1 then q11 else q10) else (if w.Value(s1) == 1 then q01 else q00)
  {
    WindowSumIs(w, s0, s1, both, q00, q10, q01, q11);
    var d10, d01, d11 := Sub(q10, q00), Sub(q01, q00), Add(Sub(Sub(q11, q10), q01), q00);
    TimesUnits(w.Value(s0));
    TimesUnits(w.Value(s1));
    TimesUnits(d10);
    TimesUnits(d01);
    TimesUnits(d11);
    SumOfDifferences(q00, q10, q01, q11);
  }

  lemma SumOfDifferences(q00: Scalar, q10: Scalar, q01: Scalar, q11: Scalar)
    ensures Add(q00, Sub(q10, q00)) == q10 && Add(q00, Sub(q01, q00)) == q01
    ensures Add(Add(q10, Sub(q01, q00)), Add(Sub(Sub(q11, q10), q01), q00)) == q11
  {
    RedAdd(q00, q00, Sub(q10, q00), q10 - q00);
    RedAdd(q00, q00, Sub(q01, q00), q01 - q00);
    RedAdd(q10, q10, Sub(q01, q00), q01 - q00);
    RedSub(Sub(q11, q10), q11 - q10, q01, q01);
    RedAdd(Sub(Sub(q11, q10), q01), q11 - q10 - q01, q00, q00);
    RedAdd(Add(q10, Sub(q01, q00)), q10 + (q01 - q00), Add(Sub(Sub(q11, q10), q01), q00), q11 - q10 - q01 + q00);
  }

  // ----- one addition -----

  // The second coordinates follow from the first: the addition is the chord's, when
  // the denominator is nonzero.
  predicate Chained(w: Wires, prev: Pair, delta: Pair, next: Pair) {
    w.Eval(prev.x) != w.Eval(delta.x) ==> At(w, next) == ChordSum(At(w, prev), At(w, delta))
  }

  lemma SlopeUnique(s: Scalar, d: Scalar, n: Scalar)
    requires d != 0
    ensures Mul(s, d) == n <==> s == Mul(n, Inverse(d))
  {
    InverseLaw(d);
    MulAssociates(s, d, Inverse(d));
    TimesUnits(s);
    MulAssociates(n, Inverse(d), d);
    TimesCommutes(d, Inverse(d));
    TimesUnits(n);
  }

  // The prover's slope and denominator for this addition.
  predicate HonestSlope(w: Wires, prev: Pair, delta: Pair, assignment: Option<(Scalar, Scalar)>) {
    && assignment.Some?
    && assignment.value.1 == Sub(w.Eval(prev.x), w.Eval(delta.x))
    && Mul(assignment.value.0, assignment.value.1) == Sub(w.Eval(prev.y), w.Eval(delta.y))
  }

  // The slope gate: s (x - x') = y - y'.
  method ConstrainSlope(cs: ConstraintSystem, prev: Pair, delta: Pair, assignment: Option<(Scalar, Scalar)>) returns (r: Result<Variable, R1CSError>)
    requires cs.State().WellFormed() && KnownPair(cs.State(), prev) && KnownPair(cs.State(), delta)
    modifies cs
    ensures r.Err? <==> cs.proving && assignment.None?
    ensures r.Err? ==> r.error == MissingAssignment
    ensures cs.State().WellFormed() && Grown(old(cs.State()), cs.State())
    ensures r.Ok? ==>
      && cs.gates == old(cs.gates) + 1 && cs.pendingMultiplier == old(cs.pendingMultiplier) && cs.State().Known(r.value)
      && (old(cs.State()).Honest() && HonestSlope(old(cs.State()).Own(), prev, delta, assignment) ==> cs.State().Honest())
      && forall w: Wires :: w.Satisfies(cs.constraints) ==>
        w.Satisfies(old(cs.constraints))
        && Mul(w.Value(r.value), Sub(w.Eval(prev.x), w.Eval(delta.x))) == Sub(w.Eval(prev.y), w.Eval(delta.y))
  {
    ghost var s := cs.State();
    var wires := cs.AllocateMultiplier(assignment);
    if wires.Err? {
      return Err(wires.error);
    }
    var (slope, denominator, product) := wires.value;
    ghost var t := cs.State();
    GrownPair(s, t, prev);
    GrownPair(s, t, delta);
    var difference, rise := Minus(prev.x, delta.x), Minus(prev.y, delta.y);
    forall w: Wires
      ensures w.Eval(difference) == Sub(w.Eval(prev.x), w.Eval(delta.x))
      ensures w.Eval(rise) == Sub(w.Eval(prev.y), w.Eval(delta.y))
    {
      EvalMinus(w, prev.x, delta.x);
      EvalMinus(w, prev.y, delta.y);
    }
    VarEquals(denominator, difference);
    VarEquals(product, rise);
    cs.Constrain(Minus(Var(denominator), difference));
    cs.Constrain(Minus(Var(product), rise));
    r := Ok(slope);
  }

  // Three gates: the sum of the running point and the window's delta.
  method AddWindow(cs: ConstraintSystem, prev: Pair, delta: Pair, assignment: Option<(Scalar, Scalar)>) returns (r: Result<Pair, R1CSError>)
    requires cs.State().WellFormed() && KnownPair(cs.State(), prev) && KnownPair(cs.State(), delta)
    modifies cs
    ensures r.Err? <==> cs.proving && assignment.None?
    ensures r.Err? ==> r.error == MissingAssignment
    ensures cs.State().WellFormed() && Grown(old(cs.State()), cs.State())
    ensures r.Ok? ==>
      && cs.gates == old(cs.gates) + 3 && cs.pendingMultiplier == old(cs.pendingMultiplier) && KnownPair(cs.State(), r.value)
      && (old(cs.State()).Honest() && HonestSlope(old(cs.State()).Own(), prev, delta, assignment) ==> cs.State().Honest())
      && forall w: Wires :: w.Satisfies(cs.constraints) ==> w.Satisfies(old(cs.constraints)) && Chained(w, prev, delta, r.value)
  {
    ghost var s := cs.State();
    var slope := ConstrainSlope(cs, prev, delta, assignment);
    if slope.Err? {
      return Err(slope.error);
    }
    GrownPair(s, cs.State(), prev);
    GrownPair(s, cs.State(), delta);
    ghost var s1 := cs.constraints;
    var _, _, square := cs.Multiply(Var(slope.value), Var(slope.value));
    var x := Minus(Minus(Var(square), prev.x), delta.x);
    GrownPair(s, cs.State(), prev);
    GrownPair(s, cs.State(), delta);
    ghost var s2 := cs.constraints;
    var _, _, rise := cs.Multiply(Var(slope.value), Minus(prev.x, x));
    var y := Minus(Var(rise), prev.y);
    GrownPair(s, cs.State(), prev);
    forall w: Wires | w.Satisfies(cs.constraints)
      ensures w.Satisfies(s.constraints) && Chained(w, prev, delta, Pair(x, y))
    {
      assert w.Satisfies(s2) && w.Satisfies(s1);
      VarIsValue(slope.value);
      AdditionMeans(w, prev, delta, slope.value, square, rise);
    }
    r := Ok(Pair(x, y));
  }

  lemma AdditionMeans(w: Wires, prev: Pair, delta: Pair, slope: Variable, square: Variable, rise: Variable)
    requires Mul(w.Value(slope), Sub(w.Eval(prev.x), w.Eval(delta.x))) == Sub(w.Eval(prev.y), w.Eval(delta.y))
    requires w.Value(square) == Mul(w.Value(slope), w.Value(slope))
    requires
      var x := Minus(Minus(Var(square), prev.x), delta.x);
      w.Value(rise) == Mul(w.Value(slope), w.Eval(Minus(prev.x, x)))
    ensures
      var x := Minus(Minus(Var(square), prev.x), delta.x);
      Chained(w, prev, delta, Pair(x, Minus(Var(rise), prev.y)))
  {
    var x := Minus(Minus(Var(square), prev.x), delta.x);
    EvalTerm(w, square, 1);
    EvalTerm(w, rise, 1);
    EvalMinus(w, Var(square), prev.x);
    EvalMinus(w, Minus(Var(square), prev.x), delta.x);
    EvalMinus(w, prev.x, x);
    EvalMinus(w, Var(rise), prev.y);
    if w.Eval(prev.x) != w.Eval(delta.x) {
      ZeroDifference(w.Eval(prev.x), w.Eval(delta.x));
      SlopeUnique(w.Value(slope), Sub(w.Eval(prev.x), w.Eval(delta.x)), Sub(w.Eval(prev.y), w.Eval(delta.y)));
    }
  }

  // ----- the shared window products -----

  predicate Products(w: Wires, bits: seq<Variable>, products: seq<Variable>) {
    forall i :: 0 <= i < |products| && 2 * i + 2 < |bits| ==>
      w.Value(products[i]) == Mul(w.Value(bits[2 * i + 1]), w.Value(bits[2 * i + 2]))
  }

  // One product per window of two bits.
  method ChordWindowProducts(cs: ConstraintSystem, bits: seq<Variable>) returns (r: Result<seq<Variable>, R1CSError>)
    requires cs.State().WellFormed() && AllKnown(cs.State(), bits)
    modifies cs
    ensures r.Err? <==> |bits| < 3 || |bits| % 2 == 0
    ensures r.Err? ==> r.error == FormatError && cs.State() == old(cs.State())
    ensures cs.State().WellFormed() && Grown(old(cs.State()), cs.State())
    ensures r.Ok? ==>
      && |r.value| == (|bits| - 1) / 2 && AllKnown(cs.State(), r.value)
      && cs.gates == old(cs.gates) + |r.value| && cs.pendingMultiplier == old(cs.pendingMultiplier)
      && (old(cs.State()).Honest() ==> cs.State().Honest())
      && forall w: Wires :: w.Satisfies(cs.constraints) ==> w.Satisfies(old(cs.constraints)) && Products(w, bits, r.value)
  {
    if |bits| < 3 || |bits| % 2 == 0 {
      return Err(FormatError);
    }
    var numWindows := (|bits| - 1) / 2;
    var products := [];
    for w := 1 to numWindows + 1
      invariant |products| == w - 1 && AllKnown(cs.State(), products) && AllKnown(cs.State(), bits)
      invariant cs.State().WellFormed() && Grown(old(cs.State()), cs.State())
      invariant cs.gates == old(cs.gates) + (w - 1) && cs.pendingMultiplier == old(cs.pendingMultiplier)
      invariant old(cs.State()).Honest() ==> cs.State().Honest()
      invariant forall a: Wires :: a.Satisfies(cs.constraints) ==> a.Satisfies(old(cs.constraints)) && Products(a, bits, products)
    {
      VarIsValue(bits[2 * w - 1]);
      VarIsValue(bits[2 * w]);
      var _, _, both := cs.Multiply(Var(bits[2 * w - 1]), Var(bits[2 * w]));
      products := products + [both];
    }
    r := Ok(products);
  }

  // ----- the gadget -----

  // Fresh wires for a running point.
  method Checkpoint(cs: ConstraintSystem, next: Pair, assignment: Option<Affine>) returns (r: Result<(Variable, Variable), R1CSError>)
    requires cs.State().WellFormed() && KnownPair(cs.State(), next)
    modifies cs
    ensures r.Err? <==> cs.proving && assignment.None?
    ensures r.Err? ==> r.error == MissingAssignment
    ensures cs.State().WellFormed() && Grown(old(cs.State()), cs.State())
    ensures r.Ok? ==>
      && cs.gates == old(cs.gates) + 1 && (cs.pendingMultiplier.None? <==> old(cs.pendingMultiplier).None?)
      && cs.State().Known(r.value.0) && cs.State().Known(r.value.1)
      && (old(cs.State()).Honest() && assignment == Some(At(old(cs.State()).Own(), next)) ==> cs.State().Honest())
      && forall w: Wires :: w.Satisfies(cs.constraints) ==>
        w.Satisfies(old(cs.constraints)) && Affine(w.Value(r.value.0), w.Value(r.value.1)) == At(w, next)
  {
    ghost var s := cs.State();
    var x := cs.Allocate(if assignment.Some? then Some(assignment.value.x) else None);
    if x.Err? {
      return Err(x.error);
    }
    var y := cs.Allocate(if assignment.Some? then Some(assignment.value.y) else None);
    GrownPair(s, cs.State(), next);
    EqualsVar(next.x, x.value);
    EqualsVar(next.y, y.value);
    cs.Constrain(Minus(next.x, Var(x.value)));
    cs.Constrain(Minus(next.y, Var(y.value)));
    r := Ok((x.value, y.value));
  }

  // The running point after window v, for assignments whose additions are all chords.
  predicate Reaches(w: Wires, c: Chord, bits: seq<Variable>, v: nat, prev: Pair)
    requires 2 * v < |bits|
  {
    c.RegularTo(ReadBits(w, bits), v) ==> At(w, prev) == c.curve.at(c.Point(ReadBits(w, bits), v))
  }

  // Folded, so that the methods below carry it without unrolling the chain.
  predicate FoldedReached(w: Wires, c: Chord, bits: seq<Variable>, v: nat, prev: Pair, n: nat)
    requires 2 * v < |bits|
    decreases n
  {
    if n == 0 then Reaches(w, c, bits, v, prev) else FoldedReached(w, c, bits, v, prev, n - 1)
  }

  predicate Reached(w: Wires, c: Chord, bits: seq<Variable>, v: nat, prev: Pair)
    requires 2 * v < |bits|
  {
    FoldedReached(w, c, bits, v, prev, q)
  }

  lemma UnfoldReached(w: Wires, c: Chord, bits: seq<Variable>, v: nat, prev: Pair, n: nat)
    requires 2 * v < |bits|
    ensures FoldedReached(w, c, bits, v, prev, n) <==> Reaches(w, c, bits, v, prev)
    decreases n
  {
  }

  lemma ReachedMeans(w: Wires, c: Chord, bits: seq<Variable>, v: nat, prev: Pair)
    requires 2 * v < |bits|
    ensures Reached(w, c, bits, v, prev) <==> Reaches(w, c, bits, v, prev)
  {
    UnfoldReached(w, c, bits, v, prev, q);
  }

  // Pairs with the same values reach the same point.
  lemma ReachedSame(w: Wires, c: Chord, bits: seq<Variable>, v: nat, p: Pair, p': Pair)
    requires 2 * v < |bits| && At(w, p) == At(w, p') && Reached(w, c, bits, v, p)
    ensures Reached(w, c, bits, v, p')
  {
    ReachedMeans(w, c, bits, v, p);
    ReachedMeans(w, c, bits, v, p');
  }

  lemma ReachedAtStart(w: Wires, c: Chord, bits: seq<Variable>)
    requires |bits| > 0 && Boolean(w, bits)
    ensures Reached(w, c, bits, 0, Delta0(bits[0], Tables(c)))
  {
    var t := Tables(c);
    TablesAre(c);
    SelectOne(w, bits[0], t.c0.x, t.d0.x);
    SelectOne(w, bits[0], t.c0.y, t.d0.y);
    assert c.Running(ReadBits(w, bits), 0) == 0;
    ReachedMeans(w, c, bits, 0, Delta0(bits[0], t));
  }

  lemma DeltaSelected(w: Wires, c: Chord, bits: seq<Variable>, both: Variable, v: nat)
    requires 0 < v && 2 * v < |bits| && v <= c.lambda / 2 && Boolean(w, bits)
    requires w.Value(both) == Mul(w.Value(bits[2 * v - 1]), w.Value(bits[2 * v]))
    ensures At(w, WindowDeltaPair(bits[2 * v - 1], bits[2 * v], both, Tables(c).windows[v - 1])) == c.curve.at(c.WindowDelta(ReadBits(w, bits), v))
  {
    var t := TableOf(c, v);
    TablesAre(c);
    var s0, s1 := bits[2 * v - 1], bits[2 * v];
    WindowSelects(w, s0, s1, both, t.q00.x, t.q10.x, t.q01.x, t.q11.x);
    WindowSelects(w, s0, s1, both, t.q00.y, t.q10.y, t.q01.y, t.q11.y);
    var b0, b1 := ReadBits(w, bits)[2 * v - 1], ReadBits(w, bits)[2 * v];
    assert c.WindowDelta(ReadBits(w, bits), v) == c.Candidate(v, b0, b1);
    assert Select(b0, b1, t) == c.curve.at(c.Candidate(v, b0, b1));
  }

  lemma ReachedStep(w: Wires, c: Chord, bits: seq<Variable>, both: Variable, v: nat, prev: Pair, delta: Pair, next: Pair)
    requires c.curve.Lawful() && c.Tabulable() && |bits| == c.lambda + 1 && 0 < v && 2 * v <= c.lambda && Boolean(w, bits)
    requires w.Value(both) == Mul(w.Value(bits[2 * v - 1]), w.Value(bits[2 * v]))
    requires delta == WindowDeltaPair(bits[2 * v - 1], bits[2 * v], both, Tables(c).windows[v - 1])
    requires Reached(w, c, bits, v - 1, prev) && Chained(w, prev, delta, next)
    ensures Reached(w, c, bits, v, next)
  {
    var b := ReadBits(w, bits);
    ReachedMeans(w, c, bits, v - 1, prev);
    ReachedMeans(w, c, bits, v, next);
    if c.RegularTo(b, v) {
      assert c.RegularTo(b, v - 1);
      DeltaSelected(w, c, bits, both, v);
      c.PointsAreFinite(b, v);
    }
  }

  // The prover's part for window v.
  lemma HonestStep(w: Wires, c: Chord, bits: seq<Variable>, both: Variable, v: nat, prev: Pair, delta: Pair)
    requires |bits| == c.lambda + 1 && 0 < v && 2 * v <= c.lambda && Boolean(w, bits)
    requires w.Value(both) == Mul(w.Value(bits[2 * v - 1]), w.Value(bits[2 * v]))
    requires delta == WindowDeltaPair(bits[2 * v - 1], bits[2 * v], both, Tables(c).windows[v - 1])
    requires Reached(w, c, bits, v - 1, prev) && c.RegularTo(ReadBits(w, bits), v)
    ensures
      var b := ReadBits(w, bits);
      HonestSlope(w, prev, delta, Some((WindowSlope(c, b, v), WindowDenominator(c, b, v))))
  {
    var b := ReadBits(w, bits);
    ReachedMeans(w, c, bits, v - 1, prev);
    assert c.RegularTo(b, v - 1);
    DeltaSelected(w, c, bits, both, v);
    var p, d := c.curve.at(c.Point(b, v - 1)), c.curve.at(c.WindowDelta(b, v));
    assert p.x != d.x;
    ZeroDifference(p.x, d.x);
    SlopeUnique(WindowSlope(c, b, v), Sub(p.x, d.x), Sub(p.y, d.y));
  }

  // What the gadget asks of its bits and window products.
  predicate Inputs(w: Wires, bits: seq<Variable>, products: seq<Variable>) {
    Boolean(w, bits) && Products(w, bits, products)
  }

  // The assignments of window v that the witness for these bits holds.
  predicate HonestWindow(c: Chord, bits: seq<bool>, v: nat, assignment: Option<(Scalar, Scalar)>, checkpoint: Option<Affine>)
    requires 0 < v && 2 * v < |bits| == c.lambda + 1
  {
    && HonestAddition(c, bits, v, assignment)
    && (IsCheckpointWindow(v, c.lambda / 2) ==> checkpoint == Some(c.curve.at(c.Point(bits, v))))
  }

  predicate HonestAddition(c: Chord, bits: seq<bool>, v: nat, assignment: Option<(Scalar, Scalar)>)
    requires 0 < v && 2 * v < |bits| == c.lambda + 1
  {
    c.RegularTo(bits, v) && assignment == Some((WindowSlope(c, bits, v), WindowDenominator(c, bits, v)))
  }

  // One window's addition.
  method ReachWindow(cs: ConstraintSystem, v: nat, bits: seq<Variable>, both: Variable, table: Window, prev: Pair, assignment: Option<(Scalar, Scalar)>, ghost c: Chord)
    returns (r: Result<Pair, R1CSError>)
    requires c.curve.Lawful() && c.Tabulable() && 0 < v && 2 * v <= c.lambda && |bits| == c.lambda + 1
    requires table == Tables(c).windows[v - 1]
    requires cs.State().WellFormed() && KnownPair(cs.State(), prev) && AllKnown(cs.State(), bits) && cs.State().Known(both)
    requires forall w: Wires :: w.Satisfies(cs.constraints) ==>
      Boolean(w, bits) && w.Value(both) == Mul(w.Value(bits[2 * v - 1]), w.Value(bits[2 * v])) && Reached(w, c, bits, v - 1, prev)
    modifies cs
    ensures r.Err? <==> cs.proving && assignment.None?
    ensures r.Err? ==> r.error == MissingAssignment
    ensures cs.State().WellFormed() && Grown(old(cs.State()), cs.State())
    ensures r.Ok? ==>
      && KnownPair(cs.State(), r.value) && cs.gates == old(cs.gates) + 3 && cs.pendingMultiplier == old(cs.pendingMultiplier)
      && (old(cs.State()).Honest() && HonestAddition(c, ReadBits(old(cs.State()).Own(), bits), v, assignment) ==> cs.State().Honest())
      && forall w: Wires :: w.Satisfies(cs.constraints) ==> w.Satisfies(old(cs.constraints)) && Reached(w, c, bits, v, r.value)
  {
    ghost var s := cs.State();
    var delta := WindowDeltaPair(bits[2 * v - 1], bits[2 * v], both, table);
    if s.Honest() && HonestAddition(c, ReadBits(s.Own(), bits), v, assignment) {
      HonestStep(s.Own(), c, bits, both, v, prev, delta);
    }
    r := AddWindow(cs, prev, delta, assignment);
    if r.Ok? {
      forall w: Wires | w.Satisfies(cs.constraints)
        ensures Reached(w, c, bits, v, r.value)
      {
        ReachedStep(w, c, bits, both, v, prev, delta, r.value);
      }
    }
  }

  // One window, with a checkpoint where one is due.
  method ChordStep(cs: ConstraintSystem, v: nat, bits: seq<Variable>, both: Variable, table: Window, prev: Pair, assignment: Option<(Scalar, Scalar)>, due: bool, checkpoint: Option<Affine>, ghost c: Chord)
    returns (r: Result<(Pair, Option<(Variable, Variable)>), R1CSError>)
    requires c.curve.Lawful() && c.Tabulable() && 0 < v && 2 * v <= c.lambda && |bits| == c.lambda + 1
    requires table == Tables(c).windows[v - 1] && due == IsCheckpointWindow(v, c.lambda / 2)
    requires cs.State().WellFormed() && KnownPair(cs.State(), prev) && AllKnown(cs.State(), bits) && cs.State().Known(both)
    requires forall w: Wires :: w.Satisfies(cs.constraints) ==>
      Boolean(w, bits) && w.Value(both) == Mul(w.Value(bits[2 * v - 1]), w.Value(bits[2 * v])) && Reached(w, c, bits, v - 1, prev)
    modifies cs
    ensures r.Err? <==> cs.proving && (assignment.None? || (due && checkpoint.None?))
    ensures r.Err? ==> r.error == MissingAssignment
    ensures cs.State().WellFormed() && Grown(old(cs.State()), cs.State())
    ensures r.Ok? ==>
      && KnownPair(cs.State(), r.value.0) && (r.value.1.Some? <==> due)
      && (due ==> r.value.0 == Pair(Var(r.value.1.value.0), Var(r.value.1.value.1)) && cs.State().Known(r.value.1.value.0) && cs.State().Known(r.value.1.value.1))
      && cs.gates == old(cs.gates) + 3 + (if due then 1 else 0)
      && (cs.pendingMultiplier.None? <==> old(cs.pendingMultiplier).None?)
      && (old(cs.State()).Honest() && HonestWindow(c, ReadBits(old(cs.State()).Own(), bits), v, assignment, checkpoint) ==> cs.State().Honest())
      && forall w: Wires :: w.Satisfies(cs.constraints) ==> w.Satisfies(old(cs.constraints)) && Reached(w, c, bits, v, r.value.0)
  {
    ghost var s := cs.State();
    var next := ReachWindow(cs, v, bits, both, table, prev, assignment, c);
    if next.Err? {
      return Err(next.error);
    }
    ghost var t := cs.State();
    GrownBits(s, t, bits);
    if t.Honest() && c.RegularTo(ReadBits(s.Own(), bits), v) {
      ReachedMeans(t.Own(), c, bits, v, next.value);
    }
    if due {
      var wires := Checkpoint(cs, next.value, checkpoint);
      if wires.Err? {
        return Err(wires.error);
      }
      var (x, y) := wires.value;
      forall w: Wires | w.Satisfies(cs.constraints)
        ensures Reached(w, c, bits, v, Pair(Var(x), Var(y)))
      {
        VarIsValue(x);
        VarIsValue(y);
        ReachedSame(w, c, bits, v, next.value, Pair(Var(x), Var(y)));
      }
      r := Ok((Pair(Var(x), Var(y)), Some((x, y))));
    } else {
      r := Ok((next.value, None));
    }
  }

  // Gates of one exponentiation.
  function ChordGates(numWindows: nat): nat {
    3 * numWindows + CheckpointCount(numWindows)
  }

  // A satisfying assignment whose additions are all chords has the bits' multiple of
  // the base on the returned wires.
  predicate Exponentiated(w: Wires, c: Chord, bits: seq<Variable>, x: Variable, y: Variable)
    requires |bits| == c.lambda + 1
  {
    c.RegularTo(ReadBits(w, bits), c.lambda / 2) ==>
      Affine(w.Value(x), w.Value(y)) == c.curve.at(Times(Number(ReadBits(w, bits)), c.base))
  }

  predicate Bound(w: Wires, x: Variable, y: Variable, result: Option<Affine>) {
    result.Some? ==> Affine(w.Value(x), w.Value(y)) == result.value
  }

  // The witness the prover computes from its own bits, and the point they lead to.
  predicate HonestChord(c: Chord, bits: seq<bool>, result: Option<Affine>, wit: Option<ChordWitness>)
    requires |bits| == c.lambda + 1
  {
    && c.RegularTo(bits, c.lambda / 2) && wit == Some(WitnessOf(c, bits))
    && (result.Some? ==> result.value == c.curve.at(Times(Number(bits), c.base)))
  }

  predicate WitnessFits(wit: Option<ChordWitness>, numWindows: nat) {
    wit.Some? ==>
      && |wit.value.checkpointCoords| == CheckpointCount(numWindows)
      && |wit.value.slopes| == numWindows && |wit.value.denominators| == numWindows
  }

  lemma WitnessOfFits(c: Chord, bits: seq<bool>)
    requires |bits| == c.lambda + 1
    ensures WitnessFits(Some(WitnessOf(c, bits)), c.lambda / 2)
  {
    CheckpointCountIs(c.lambda / 2);
  }

  lemma EndPoint(c: Chord, bits: seq<bool>)
    requires c.curve.Lawful() && c.lambda > 0 && c.lambda % 2 == 0 && |bits| == c.lambda + 1
    ensures c.curve.at(c.Point(bits, c.lambda / 2)) == c.curve.at(Times(Number(bits), c.base))
  {
    c.RunningIsMultiple(bits);
  }

  lemma {:induction false} CheckpointCoordsAt(c: Chord, bits: seq<bool>, n: nat, v: nat)
    requires 0 < v <= n && 2 * n < |bits| == c.lambda + 1 && IsCheckpointWindow(v, c.lambda / 2)
    ensures CheckpointsTo(v - 1, c.lambda / 2) < CheckpointsTo(v, c.lambda / 2) <= CheckpointsTo(n, c.lambda / 2)
    ensures CheckpointCoords(c, bits, n)[CheckpointsTo(v - 1, c.lambda / 2)] == c.curve.at(c.Point(bits, v))
  {
    if v < n {
      CheckpointCoordsAt(c, bits, n - 1, v);
    }
  }

  lemma {:induction false} CheckpointsGrow(v: nat, n: nat, numWindows: nat)
    requires v <= n
    ensures CheckpointsTo(v, numWindows) <= CheckpointsTo(n, numWindows)
  {
    if v < n {
      CheckpointsGrow(v, n - 1, numWindows);
    }
  }

  // Window v with the assignments the witness holds for it.
  method WindowAt(cs: ConstraintSystem, v: nat, bits: seq<Variable>, precomp: ChordPrecomp, products: seq<Variable>, wit: Option<ChordWitness>, idx: nat, prev: Pair, ghost c: Chord)
    returns (r: Result<(Pair, Option<(Variable, Variable)>), R1CSError>)
    requires c.curve.Lawful() && c.Tabulable() && precomp == Tables(c) && 0 < v && 2 * v <= c.lambda && c.lambda % 2 == 0
    requires |bits| == c.lambda + 1 && |products| == c.lambda / 2 && WitnessFits(wit, c.lambda / 2) && idx == CheckpointsTo(v - 1, c.lambda / 2)
    requires cs.State().WellFormed() && KnownPair(cs.State(), prev) && AllKnown(cs.State(), bits) && AllKnown(cs.State(), products)
    requires forall w: Wires :: w.Satisfies(cs.constraints) ==> Inputs(w, bits, products) && Reached(w, c, bits, v - 1, prev)
    modifies cs
    ensures r.Err? <==> cs.proving && wit.None?
    ensures r.Err? ==> r.error == MissingAssignment
    ensures cs.State().WellFormed() && Grown(old(cs.State()), cs.State())
    ensures r.Ok? ==>
      var due := IsCheckpointWindow(v, c.lambda / 2);
      && KnownPair(cs.State(), r.value.0) && (due ==> Checkpointed(cs.State(), r.value.1, r.value.0))
      && cs.gates == old(cs.gates) + 3 + (if due then 1 else 0)
      && (cs.pendingMultiplier.None? <==> old(cs.pendingMultiplier).None?)
      && (old(cs.State()).Honest() && HonestChord(c, ReadBits(old(cs.State()).Own(), bits), None, wit) ==> cs.State().Honest())
      && forall w: Wires :: w.Satisfies(cs.constraints) ==> w.Satisfies(old(cs.constraints)) && Reached(w, c, bits, v, r.value.0)
  {
    var due := IsCheckpointWindow(v, (|bits| - 1) / 2);
    HonestWindowOf(c, ReadBits(cs.State().Own(), bits), v, wit);
    forall w: Wires | w.Satisfies(cs.constraints)
      ensures Boolean(w, bits) && w.Value(products[v - 1]) == Mul(w.Value(bits[2 * v - 1]), w.Value(bits[2 * v]))
    {
      InputsAt(w, bits, products, v);
    }
    r := ChordStep(cs, v, bits, products[v - 1], precomp.windows[v - 1], prev, SlopeAssignment(wit, v), due, CheckpointAssignment(wit, due, idx), c);
  }

  predicate Checkpointed(s: System, checkpoint: Option<(Variable, Variable)>, prev: Pair) {
    checkpoint.Some? && s.Known(checkpoint.value.0) && s.Known(checkpoint.value.1) && prev == Pair(Var(checkpoint.value.0), Var(checkpoint.value.1))
  }

  // The windows of one exponentiation.
  method ChordWindows(cs: ConstraintSystem, bits: seq<Variable>, precomp: ChordPrecomp, products: seq<Variable>, wit: Option<ChordWitness>, ghost c: Chord)
    returns (r: Result<(Variable, Variable), R1CSError>)
    requires c.curve.Lawful() && c.Tabulable() && c.lambda > 0 && c.lambda % 2 == 0 && precomp == Tables(c)
    requires |bits| == c.lambda + 1 && |products| == c.lambda / 2 && WitnessFits(wit, c.lambda / 2)
    requires cs.State().WellFormed() && AllKnown(cs.State(), bits) && AllKnown(cs.State(), products)
    requires forall w: Wires :: w.Satisfies(cs.constraints) ==> Inputs(w, bits, products)
    modifies cs
    ensures r.Err? <==> cs.proving && wit.None?
    ensures r.Err? ==> r.error == MissingAssignment
    ensures cs.State().WellFormed() && Grown(old(cs.State()), cs.State())
    ensures r.Ok? ==>
      && cs.State().Known(r.value.0) && cs.State().Known(r.value.1)
      && cs.gates == old(cs.gates) + ChordGates(c.lambda / 2) && (cs.pendingMultiplier.None? <==> old(cs.pendingMultiplier).None?)
      && (old(cs.State()).Honest() && HonestChord(c, ReadBits(old(cs.State()).Own(), bits), None, wit) ==> cs.State().Honest())
      && forall w: Wires :: w.Satisfies(cs.constraints) ==> w.Satisfies(old(cs.constraints)) && Exponentiated(w, c, bits, r.value.0, r.value.1)
  {
    ghost var s := cs.State();
    ghost var b := ReadBits(s.Own(), bits);
    var numWindows := (|bits| - 1) / 2;
    CheckpointCountIs(numWindows);
    var prev := Delta0(bits[0], precomp);
    forall w: Wires | w.Satisfies(cs.constraints)
      ensures Reached(w, c, bits, 0, prev)
    {
      ReachedAtStart(w, c, bits);
    }
    var checkpoint: Option<(Variable, Variable)> := None;
    var checkpointIdx := 0;
    for v := 1 to numWindows + 1
      invariant cs.State().WellFormed() && Grown(s, cs.State()) && KnownPair(cs.State(), prev)
      invariant checkpointIdx == CheckpointsTo(v - 1, numWindows)
      invariant cs.gates == s.gates + 3 * (v - 1) + checkpointIdx && (cs.pendingMultiplier.None? <==> s.pending.None?)
      invariant v == numWindows + 1 ==> Checkpointed(cs.State(), checkpoint, prev)
      invariant s.Honest() && HonestChord(c, b, None, wit) ==> cs.State().Honest()
      invariant cs.proving ==> wit.Some? || v == 1
      invariant forall w: Wires :: w.Satisfies(cs.constraints) ==> w.Satisfies(s.constraints) && Reached(w, c, bits, v - 1, prev)
    {
      GrownBits(s, cs.State(), bits);
      var step := WindowAt(cs, v, bits, precomp, products, wit, checkpointIdx, prev, c);
      if step.Err? {
        return Err(step.error);
      }
      prev := step.value.0;
      if IsCheckpointWindow(v, numWindows) {
        checkpoint := step.value.1;
        checkpointIdx := checkpointIdx + 1;
      }
    }
    forall w: Wires | w.Satisfies(cs.constraints)
      ensures Exponentiated(w, c, bits, checkpoint.value.0, checkpoint.value.1)
    {
      ReachesTheMultiple(w, c, bits, checkpoint.value.0, checkpoint.value.1);
    }
    r := Ok(checkpoint.value);
  }

  lemma InputsAt(w: Wires, bits: seq<Variable>, products: seq<Variable>, v: nat)
    requires Inputs(w, bits, products) && 0 < v <= |products| && 2 * v < |bits|
    ensures Boolean(w, bits) && w.Value(products[v - 1]) == Mul(w.Value(bits[2 * v - 1]), w.Value(bits[2 * v]))
  {
    var i := v - 1;
    assert w.Value(products[i]) == Mul(w.Value(bits[2 * i + 1]), w.Value(bits[2 * i + 2]));
  }

  lemma ReachesTheMultiple(w: Wires, c: Chord, bits: seq<Variable>, x: Variable, y: Variable)
    requires c.curve.Lawful() && c.lambda > 0 && c.lambda % 2 == 0 && |bits| == c.lambda + 1
    requires Reached(w, c, bits, c.lambda / 2, Pair(Var(x), Var(y)))
    ensures Exponentiated(w, c, bits, x, y)
  {
    VarIsValue(x);
    VarIsValue(y);
    ReachedMeans(w, c, bits, c.lambda / 2, Pair(Var(x), Var(y)));
    EndPoint(c, ReadBits(w, bits));
  }

  function SlopeAssignment(wit: Option<ChordWitness>, v: nat): Option<(Scalar, Scalar)>
    requires v > 0 && (wit.Some? ==> v <= |wit.value.slopes| && v <= |wit.value.denominators|)
  {
    if wit.Some? then Some((wit.value.slopes[v - 1], wit.value.denominators[v - 1])) else None
  }

  function CheckpointAssignment(wit: Option<ChordWitness>, due: bool, idx: nat): Option<Affine>
    requires wit.Some? && due ==> idx < |wit.value.checkpointCoords|
  {
    if wit.Some? && due then Some(wit.value.checkpointCoords[idx]) else None
  }

  lemma HonestWindowOf(c: Chord, bits: seq<bool>, v: nat, wit: Option<ChordWitness>)
    requires 0 < v && 2 * v < |bits| == c.lambda + 1 && WitnessFits(wit, c.lambda / 2)
    ensures
      var idx := CheckpointsTo(v - 1, c.lambda / 2);
      var due := IsCheckpointWindow(v, c.lambda / 2);
      && (wit.Some? && due ==> idx < |wit.value.checkpointCoords|)
      && (HonestChord(c, bits, None, wit) ==> HonestWindow(c, bits, v, SlopeAssignment(wit, v), CheckpointAssignment(wit, due, idx)))
  {
    CheckpointCountIs(c.lambda / 2);
    CheckpointsGrow(v, c.lambda / 2, c.lambda / 2);
    if HonestChord(c, bits, None, wit) {
      HonestAssignments(c, bits, v);
    }
  }

  lemma HonestAssignments(c: Chord, bits: seq<bool>, v: nat)
    requires 0 < v && 2 * v < |bits| == c.lambda + 1 && c.RegularTo(bits, c.lambda / 2)
    ensures CheckpointsTo(v - 1, c.lambda / 2) < CheckpointsTo(c.lambda / 2, c.lambda / 2) || !IsCheckpointWindow(v, c.lambda / 2)
    ensures
      var t := Some(WitnessOf(c, bits));
      var due := IsCheckpointWindow(v, c.lambda / 2);
      HonestWindow(c, bits, v, SlopeAssignment(t, v), CheckpointAssignment(t, due, CheckpointsTo(v - 1, c.lambda / 2)))
  {
    RegularPrefix(c, bits, v, c.lambda / 2);
    WitnessIs(c, bits);
    WitnessAt(c, bits, v);
    if IsCheckpointWindow(v, c.lambda / 2) {
      CheckpointCoordsAt(c, bits, c.lambda / 2, v);
    }
  }

  lemma RegularPrefix(c: Chord, bits: seq<bool>, v: nat, n: nat)
    requires v <= n && 2 * n < |bits| && c.RegularTo(bits, n)
    ensures c.RegularTo(bits, v)
  {
  }

  lemma WitnessAt(c: Chord, bits: seq<bool>, v: nat)
    requires 0 < v && 2 * v < |bits| == c.lambda + 1
    ensures WitnessOf(c, bits).slopes[v - 1] == WindowSlope(c, bits, v)
    ensures WitnessOf(c, bits).denominators[v - 1] == WindowDenominator(c, bits, v)
  {
    WitnessIs(c, bits);
  }

  // The whole gadget. The wires returned carry k X whenever the wires satisfy and
  // every addition is a chord, and the prover's witness satisfies it.
  method ChordExponentiateR1csWithResult(cs: ConstraintSystem, bits: seq<Variable>, precomp: ChordPrecomp, products: seq<Variable>, result: Option<Affine>, wit: Option<ChordWitness>, ghost c: Chord)
    returns (r: Result<(Variable, Variable), R1CSError>)
    requires c.curve.Lawful() && c.Tabulable() && c.lambda > 0 && c.lambda % 2 == 0 && precomp == Tables(c)
    requires cs.State().WellFormed() && AllKnown(cs.State(), bits) && AllKnown(cs.State(), products)
    requires forall w: Wires :: w.Satisfies(cs.constraints) ==> Inputs(w, bits, products)
    modifies cs
    ensures
      var n := c.lambda / 2;
      var fits := |bits| == c.lambda + 1 && |products| == n && WitnessFits(wit, n);
      && (r.Err? <==> !fits || (cs.proving && wit.None?))
      && (!fits ==> r.error == FormatError && cs.State() == old(cs.State()))
    ensures cs.State().WellFormed() && Grown(old(cs.State()), cs.State())
    ensures r.Ok? ==>
      && cs.State().Known(r.value.0) && cs.State().Known(r.value.1)
      && cs.gates == old(cs.gates) + ChordGates(c.lambda / 2) && (cs.pendingMultiplier.None? <==> old(cs.pendingMultiplier).None?)
      && (old(cs.State()).Honest() && HonestChord(c, ReadBits(old(cs.State()).Own(), bits), result, wit) ==> cs.State().Honest())
      && forall w: Wires :: w.Satisfies(cs.constraints) ==>
        && w.Satisfies(old(cs.constraints)) && Exponentiated(w, c, bits, r.value.0, r.value.1)
        && Bound(w, r.value.0, r.value.1, result)
  {
    if |bits| < 3 || |bits| % 2 == 0 {
      return Err(FormatError);
    }
    var numWindows := (|bits| - 1) / 2;
    if |precomp.windows| != numWindows || |products| != numWindows || !WitnessFits(wit, numWindows) {
      return Err(FormatError);
    }
    ghost var s := cs.State();
    OddLength(|bits|, c.lambda);
    r := ChordWindows(cs, bits, precomp, products, wit, c);
    if r.Err? {
      return;
    }
    GrownBits(s, cs.State(), bits);
    BindResult(cs, r.value.0, r.value.1, result);
  }

  lemma OddLength(n: nat, lambda: nat)
    requires n % 2 == 1 && lambda % 2 == 0
    ensures (n - 1) / 2 == lambda / 2 <==> n == lambda + 1
  {
  }

  // The returned wires are the public result, if there is one.
  method BindResult(cs: ConstraintSystem, x: Variable, y: Variable, result: Option<Affine>)
    requires cs.State().WellFormed() && cs.State().Known(x) && cs.State().Known(y)
    modifies cs
    ensures cs.State().WellFormed() && Grown(old(cs.State()), cs.State())
    ensures cs.gates == old(cs.gates) && cs.pendingMultiplier == old(cs.pendingMultiplier)
    ensures cs.State().Honest() <==> old(cs.State()).Honest() && Bound(old(cs.State()).Own(), x, y, result)
    ensures forall w: Wires :: w.Satisfies(cs.constraints) <==> w.Satisfies(old(cs.constraints)) && Bound(w, x, y, result)
  {
    if result.Some? {
      VarConstant(x, result.value.x);
      VarConstant(y, result.value.y);
      cs.Constrain(Minus(Var(x), Constant(result.value.x)));
      cs.Constrain(Minus(Var(y), Constant(result.value.y)));
    }
  }

  lemma VarConstant(v: Variable, k: Scalar)
    ensures forall w: Wires :: w.Eval(Minus(Var(v), Constant(k))) == 0 <==> w.Value(v) == k
  {
    VarEquals(v, Constant(k));
    forall w: Wires
      ensures w.Eval(Constant(k)) == k
    {
      EvalTerm(w, v, k);
    }
  }
}
