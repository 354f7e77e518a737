// Chord-rule exponentiation outside the circuit: paper.rs.
//
// A point of the inner group is written by any of its discrete logarithms to the
// group's generator; `Curve` gives the affine coordinates of the point with a given
// logarithm. The coordinates live in the field the circuits are over.
module Chords {
  import opened Wrappers
  import opened Core
  import opened Modular
  import opened Bits
  import opened Scalars
  import opened BitGadgets
  import LinearCombinations

  type Log = int

  datatype Affine = Affine(x: Scalar, y: Scalar)

  // The slope and the sum of the chord through two points with different x.
  function Slope(a: Affine, b: Affine): Scalar {
    Mul(Sub(a.y, b.y), Inverse(Sub(a.x, b.x)))
  }

  function ThirdX(s: Scalar, a: Affine, b: Affine): Scalar {
    Sub(Sub(Mul(s, s), a.x), b.x)
  }

  function ChordSum(a: Affine, b: Affine): Affine {
    var s := Slope(a, b);
    var x := ThirdX(s, a, b);
    Affine(x, Sub(Mul(s, Sub(a.x, x)), a.y))
  }

  datatype Curve = Curve(order: Prime, at: Log -> Affine) {
    // Folded: no proof about circuits needs to divide.
    predicate FoldedIdentity(k: Log, n: nat)
      decreases n
    {
      if n == 0 then k % order == 0 else FoldedIdentity(k, n - 1)
    }

    // k G is the identity when the order divides k.
    predicate IsIdentity(k: Log) {
      FoldedIdentity(k, q)
    }

    // The coordinates belong to the point, not to the logarithm it is written by.
    ghost predicate Periodic() {
      forall j: Log, k: Log {:trigger Cong(order, j, k)} :: Cong(order, j, k) ==> at(j) == at(k)
    }

    // Points with different x add by the chord rule.
    ghost predicate AddsByChords() {
      forall j: Log, k: Log {:trigger ChordSum(at(j), at(k))} :: !IsIdentity(j) && !IsIdentity(k) && at(j).x != at(k).x ==>
        !IsIdentity(j + k) && at(j + k) == ChordSum(at(j), at(k))
    }

    ghost predicate Lawful() {
      Periodic() && AddsByChords()
    }
  }

  // c_j: 1 first, then 2, and last what makes them sum to zero modulo the order.
  function ChordCj(j: nat, lambda: nat, order: Prime): nat {
    assert IsPrime(order);
    if j == 0 then 1 else if j < lambda then 2 else (1 - 2 * lambda) % order
  }

  function CorrectionSum(n: nat, lambda: nat, order: Prime): nat {
    if n == 0 then 0 else CorrectionSum(n - 1, lambda, order) + ChordCj(n - 1, lambda, order)
  }

  lemma {:induction false} CorrectionPartial(n: nat, lambda: nat, order: Prime)
    requires 0 < n <= lambda
    ensures CorrectionSum(n, lambda, order) == 2 * n - 1
  {
    if n > 1 {
      CorrectionPartial(n - 1, lambda, order);
    } else {
      assert CorrectionSum(0, lambda, order) == 0;
    }
  }

  // The correction scalars cancel.
  lemma CorrectionsCancel(lambda: nat, order: Prime)
    requires lambda > 0
    ensures order > 0 && CorrectionSum(lambda + 1, lambda, order) % order == 0
  {
    CorrectionPartial(lambda, lambda, order);
    assert IsPrime(order);
    var r := (1 - 2 * lambda) % order;
    var k := (1 - 2 * lambda) / order;
    assert 1 - 2 * lambda == order * k + r;
    assert 2 * lambda - 1 + r == order * -k + 0;
    ModIs(order, 2 * lambda - 1 + r, -k, 0);
  }

  // A base, its correction generator and the number of bits above the first.
  datatype Chord = Chord(curve: Curve, base: Log, correction: Log, lambda: nat) {
    // P_j = 2^j X
    function Power(j: nat): Log {
      Times(Pow2(j), base)
    }

    // C_j = c_j G_S
    function Correction(j: nat): Log {
      Times(ChordCj(j, lambda, curve.order), correction)
    }

    // k_j P_j + C_j
    function Delta(bits: seq<bool>, j: nat): Log
      requires j < |bits|
    {
      if bits[j] then Power(j) + Correction(j) else Correction(j)
    }

    // The sum of the first n deltas.
    function Running(bits: seq<bool>, n: nat): Log
      requires n <= |bits|
    {
      if n == 0 then 0 else Running(bits, n - 1) + Delta(bits, n - 1)
    }

    // L_w, the running point after window w.
    function Point(bits: seq<bool>, w: nat): Log
      requires 2 * w < |bits|
    {
      Running(bits, 2 * w + 1)
    }

    // The combined delta of window w.
    function WindowDelta(bits: seq<bool>, w: nat): Log
      requires 0 < w && 2 * w < |bits|
    {
      Delta(bits, 2 * w - 1) + Delta(bits, 2 * w)
    }

    lemma {:induction false} RunningIs(bits: seq<bool>, n: nat)
      requires n <= |bits|
      ensures Running(bits, n) == Times(Number(bits[..n]), base) + Times(CorrectionSum(n, lambda, curve.order), correction)
    {
      if n == 0 {
        NumberEmpty();
        TimesUnits(base);
        TimesUnits(correction);
      } else {
        RunningIs(bits, n - 1);
        NumberPush(bits[..n - 1], bits[n - 1]);
        assert bits[..n] == bits[..n - 1] + [bits[n - 1]];
        TimesDistributes(base, Number(bits[..n - 1]), Pow2(n - 1));
        TimesDistributes(correction, CorrectionSum(n - 1, lambda, curve.order), ChordCj(n - 1, lambda, curve.order));
      }
    }

    // All the deltas add up to k X.
    lemma RunningIsMultiple(bits: seq<bool>)
      requires lambda > 0 && |bits| == lambda + 1
      ensures Cong(curve.order, Running(bits, lambda + 1), Times(Number(bits), base))
    {
      RunningIs(bits, lambda + 1);
      assert bits[..lambda + 1] == bits;
      CorrectionsCancel(lambda, curve.order);
      var c := CorrectionSum(lambda + 1, lambda, curve.order);
      var k := c / curve.order;
      TimesIsProduct(c, correction);
      assert c == curve.order * k;
      ProductAssociates(curve.order, k, correction);
      CongFromDiff(curve.order, Running(bits, lambda + 1), Times(Number(bits), base), k * correction);
    }

    lemma PointStep(bits: seq<bool>, w: nat)
      requires 0 < w && 2 * w < |bits|
      ensures Point(bits, w) == Point(bits, w - 1) + WindowDelta(bits, w)
    {
      assert Running(bits, 2 * w) == Running(bits, 2 * w - 1) + Delta(bits, 2 * w - 1);
    }

    // No table entry is the identity.
    predicate Tabulable() {
      && !curve.IsIdentity(Correction(0)) && !curve.IsIdentity(Power(0) + Correction(0))
      && forall w :: 1 <= w <= lambda / 2 ==> WindowTabulable(w)
    }

    predicate WindowTabulable(w: nat)
      requires w > 0
    {
      && !curve.IsIdentity(Candidate(w, false, false)) && !curve.IsIdentity(Candidate(w, true, false))
      && !curve.IsIdentity(Candidate(w, false, true)) && !curve.IsIdentity(Candidate(w, true, true))
    }

    // Q_{b0,b1} of window w.
    function Candidate(w: nat, b0: bool, b1: bool): Log
      requires w > 0
    {
      (if b0 then Power(2 * w - 1) + Correction(2 * w - 1) else Correction(2 * w - 1))
      + if b1 then Power(2 * w) + Correction(2 * w) else Correction(2 * w)
    }

    // Every addition up to window w is a chord.
    predicate RegularTo(bits: seq<bool>, w: nat)
      requires 2 * w < |bits|
    {
      forall v :: 1 <= v <= w ==> curve.at(Point(bits, v - 1)).x != curve.at(WindowDelta(bits, v)).x
    }

    lemma Adds(j: Log, k: Log)
      requires curve.Lawful() && !curve.IsIdentity(j) && !curve.IsIdentity(k) && curve.at(j).x != curve.at(k).x
      ensures !curve.IsIdentity(j + k) && curve.at(j + k) == ChordSum(curve.at(j), curve.at(k))
    {
    }

    lemma {:induction false} PointsAreFinite(bits: seq<bool>, w: nat)
      requires curve.Lawful() && Tabulable() && |bits| == lambda + 1 && 2 * w <= lambda && RegularTo(bits, w)
      ensures !curve.IsIdentity(Point(bits, w))
      ensures w > 0 ==> !curve.IsIdentity(WindowDelta(bits, w))
      ensures w > 0 ==> curve.at(Point(bits, w)) == ChordSum(curve.at(Point(bits, w - 1)), curve.at(WindowDelta(bits, w)))
    {
      if w == 0 {
        assert Running(bits, 0) == 0;
      } else {
        PointsAreFinite(bits, w - 1);
        PointStep(bits, w);
        assert WindowTabulable(w);
        assert WindowDelta(bits, w) == Candidate(w, bits[2 * w - 1], bits[2 * w]);
        Adds(Point(bits, w - 1), WindowDelta(bits, w));
      }
    }
  }

  lemma ProductAssociates(m: int, k: int, c: int)
    ensures m * k * c == m * (k * c)
  {
  }

  // ----- precomputation -----

  datatype Window = Window(q00: Affine, q10: Affine, q01: Affine, q11: Affine)

  datatype ChordPrecomp = ChordPrecomp(c0: Affine, d0: Affine, windows: seq<Window>, powers: seq<Log>, corrections: seq<Log>)

  function TableOf(c: Chord, w: nat): Window
    requires w > 0
  {
    Window(c.curve.at(c.Candidate(w, false, false)), c.curve.at(c.Candidate(w, true, false)),
           c.curve.at(c.Candidate(w, false, true)), c.curve.at(c.Candidate(w, true, true)))
  }

  function TablesOf(c: Chord): (p: ChordPrecomp)
    ensures |p.windows| == c.lambda / 2 && |p.powers| == c.lambda + 1 && |p.corrections| == 3
  {
    ChordPrecomp(c.curve.at(c.Correction(0)), c.curve.at(c.Power(0) + c.Correction(0)),
      seq(c.lambda / 2, i requires 0 <= i < c.lambda / 2 => TableOf(c, i + 1)),
      seq(c.lambda + 1, j requires 0 <= j < c.lambda + 1 => c.Power(j)),
      Corrections(c))
  }

  function FoldedTables(c: Chord, n: nat): (p: ChordPrecomp)
    ensures |p.windows| == c.lambda / 2 && |p.powers| == c.lambda + 1 && |p.corrections| == 3
    decreases n
  {
    if n == 0 then TablesOf(c) else FoldedTables(c, n - 1)
  }

  // The tables for this chord. Folded, since most proofs only pass them on.
  function Tables(c: Chord): (p: ChordPrecomp)
    ensures |p.windows| == c.lambda / 2 && |p.powers| == c.lambda + 1 && |p.corrections| == 3
  {
    FoldedTables(c, q)
  }

  lemma UnfoldTables(c: Chord, n: nat)
    ensures FoldedTables(c, n) == TablesOf(c)
    decreases n
  {
  }

  lemma TablesAre(c: Chord)
    ensures Tables(c) == TablesOf(c)
  {
    UnfoldTables(c, q);
  }

  function Corrections(c: Chord): (r: seq<Log>)
    ensures |r| == 3
  {
    [c.correction, Times(2, c.correction), Times(ChordCj(c.lambda, c.lambda, c.curve.order), c.correction)]
  }

  // Affine coordinates of every point, unless one is the identity.
  function BatchAffine(curve: Curve, points: seq<Log>): (r: Result<seq<Affine>, Error>)
    ensures r.Ok? <==> AllFinite(curve, points)
    ensures r.Err? ==> r.error == ProofVerificationFailed
    ensures r.Ok? ==> |r.value| == |points| && forall i :: 0 <= i < |points| ==> r.value[i] == curve.at(points[i])
  {
    assert |points| > 0 ==> points == [points[0]] + points[1..];
    if |points| == 0 then Ok([])
    else if curve.IsIdentity(points[0]) then Err(ProofVerificationFailed)
    else
      match BatchAffine(curve, points[1..])
      case Err(e) => Err(e)
      case Ok(rest) => Ok([curve.at(points[0])] + rest)
  }

  lemma CorrectionAt(c: Chord, j: nat)
    requires c.lambda > 0 && j <= c.lambda
    ensures c.Correction(j) == Corrections(c)[if j == 0 then 0 else if j < c.lambda then 1 else 2]
  {
    TimesUnits(c.correction);
  }

  lemma PowerDoubles(c: Chord, j: nat)
    ensures c.Power(j) + c.Power(j) == c.Power(j + 1) && c.Power(0) == c.base
  {
    TimesDistributes(c.base, Pow2(j), Pow2(j));
    TimesUnits(c.base);
  }

  // C_0, D_0 and the four candidates of each window, in the order they are normalised.
  function TablePoints(c: Chord, n: nat): (points: seq<Log>)
    ensures |points| == 2 + 4 * n
  {
    if n == 0 then [c.Correction(0), c.Power(0) + c.Correction(0)]
    else TablePoints(c, n - 1) + [c.Candidate(n, false, false), c.Candidate(n, true, false), c.Candidate(n, false, true), c.Candidate(n, true, true)]
  }

  lemma {:induction false} TablePointsAt(c: Chord, n: nat, w: nat)
    requires 0 < w <= n
    ensures
      var p := TablePoints(c, n);
      && p[0] == c.Correction(0) && p[1] == c.Power(0) + c.Correction(0)
      && p[4 * w - 2] == c.Candidate(w, false, false) && p[4 * w - 1] == c.Candidate(w, true, false)
      && p[4 * w] == c.Candidate(w, false, true) && p[4 * w + 1] == c.Candidate(w, true, true)
  {
    if n > w {
      TablePointsAt(c, n - 1, w);
    } else if w > 1 {
      TablePointsAt(c, n - 1, 1);
    }
  }

  lemma {:induction false} TablePointsFinite(c: Chord, n: nat)
    requires n <= c.lambda / 2
    ensures AllFinite(c.curve, TablePoints(c, n)) <==>
      && !c.curve.IsIdentity(c.Correction(0)) && !c.curve.IsIdentity(c.Power(0) + c.Correction(0))
      && forall w :: 1 <= w <= n ==> c.WindowTabulable(w)
  {
    if n == 0 {
      assert TablePoints(c, 0)[0] == c.Correction(0) && TablePoints(c, 0)[1] == c.Power(0) + c.Correction(0);
    } else {
      TablePointsFinite(c, n - 1);
      var q00, q10, q01, q11 := c.Candidate(n, false, false), c.Candidate(n, true, false), c.Candidate(n, false, true), c.Candidate(n, true, true);
      FiniteConcat(c.curve, TablePoints(c, n - 1), [q00, q10, q01, q11]);
      FiniteFour(c.curve, q00, q10, q01, q11);
      assert c.WindowTabulable(n) <==> AllFinite(c.curve, [q00, q10, q01, q11]);
    }
  }

  predicate AllFinite(curve: Curve, points: seq<Log>) {
    forall i :: 0 <= i < |points| ==> !curve.IsIdentity(points[i])
  }

  lemma FiniteConcat(curve: Curve, a: seq<Log>, b: seq<Log>)
    ensures AllFinite(curve, a + b) <==> AllFinite(curve, a) && AllFinite(curve, b)
  {
    assert forall i :: 0 <= i < |a| ==> (a + b)[i] == a[i];
    assert forall i :: 0 <= i < |b| ==> (a + b)[|a| + i] == b[i];
  }

  lemma FiniteFour(curve: Curve, a: Log, b: Log, c: Log, d: Log)
    ensures AllFinite(curve, [a, b, c, d]) <==> !curve.IsIdentity(a) && !curve.IsIdentity(b) && !curve.IsIdentity(c) && !curve.IsIdentity(d)
  {
    var p := [a, b, c, d];
    assert p[0] == a && p[1] == b && p[2] == c && p[3] == d;
  }

  // The tables for a chord, unless one of their points is the identity.
  method PrecomputeChord(curve: Curve, base: Log, correctionGenerator: Log, lambda: nat) returns (r: Result<ChordPrecomp, Error>)
    ensures
      var c := Chord(curve, base, correctionGenerator, lambda);
      r == if lambda > 0 && lambda % 2 == 0 && c.Tabulable() then Ok(Tables(c)) else Err(ProofVerificationFailed)
  {
    if lambda == 0 || lambda % 2 != 0 {
      return Err(ProofVerificationFailed);
    }
    ghost var c := Chord(curve, base, correctionGenerator, lambda);
    var corrections := [correctionGenerator, Times(2, correctionGenerator), Times(ChordCj(lambda, lambda, curve.order), correctionGenerator)];
    var powers, cPoints, dPoints := BitPoints(base, corrections, lambda, c);
    var numWindows := lambda / 2;
    var points := [cPoints[0], dPoints[0]];
    for w := 1 to numWindows + 1
      invariant points == TablePoints(c, w - 1)
    {
      var c1, d1 := cPoints[2 * w - 1], dPoints[2 * w - 1];
      var c2, d2 := cPoints[2 * w], dPoints[2 * w];
      points := points + [c1 + c2, d1 + c2, c1 + d2, d1 + d2];
    }
    TablePointsFinite(c, numWindows);
    var affines := BatchAffine(curve, points);
    if affines.Err? {
      return Err(affines.error);
    }
    var coords := affines.value;
    TablesAre(c);
    CoordsAreTables(c, coords);
    r := Ok(ChordPrecomp(coords[0], coords[1], WindowsFrom(coords, numWindows), powers, corrections));
  }

  function WindowsFrom(coords: seq<Affine>, n: nat): (r: seq<Window>)
    requires |coords| == 2 + 4 * n
    ensures |r| == n
  {
    seq(n, i requires 0 <= i < n => Window(coords[2 + 4 * i], coords[3 + 4 * i], coords[4 + 4 * i], coords[5 + 4 * i]))
  }

  lemma CoordsAreTables(c: Chord, coords: seq<Affine>)
    requires c.lambda >= 2 && |coords| == 2 + 4 * (c.lambda / 2)
    requires forall i :: 0 <= i < |coords| ==> coords[i] == c.curve.at(TablePoints(c, c.lambda / 2)[i])
    ensures coords[0] == Tables(c).c0 && coords[1] == Tables(c).d0
    ensures WindowsFrom(coords, c.lambda / 2) == Tables(c).windows
  {
    var n := c.lambda / 2;
    TablesAre(c);
    TablePointsAt(c, n, 1);
    forall i | 0 <= i < n
      ensures WindowsFrom(coords, n)[i] == TableOf(c, i + 1)
    {
      TablePointsAt(c, n, i + 1);
    }
  }

  // P_j, C_j and D_j = P_j + C_j for every bit.
  method BitPoints(base: Log, corrections: seq<Log>, lambda: nat, ghost c: Chord) returns (powers: seq<Log>, cPoints: seq<Log>, dPoints: seq<Log>)
    requires lambda > 0 && c.lambda == lambda && c.base == base && corrections == Corrections(c)
    ensures powers == Tables(c).powers && |cPoints| == |dPoints| == lambda + 1
    ensures forall i :: 0 <= i <= lambda ==> cPoints[i] == c.Correction(i) && dPoints[i] == c.Power(i) + c.Correction(i)
  {
    TablesAre(c);
    powers, cPoints, dPoints := [], [], [];
    var pj := base;
    PowerDoubles(c, 0);
    for j := 0 to lambda + 1
      invariant |cPoints| == |dPoints| == |powers| == j && pj == c.Power(j)
      invariant forall i :: 0 <= i < j ==> powers[i] == c.Power(i) && cPoints[i] == c.Correction(i) && dPoints[i] == c.Power(i) + c.Correction(i)
    {
      var cj := corrections[if j == 0 then 0 else if j < lambda then 1 else 2];
      CorrectionAt(c, j);
      powers := powers + [pj];
      cPoints := cPoints + [cj];
      dPoints := dPoints + [pj + cj];
      PowerDoubles(c, j);
      pj := pj + pj;
    }
  }

  // k X, from the bits of k.
  method ChordEvaluatePoint(curve: Curve, bits: seq<bool>, base: Log, correctionGenerator: Log, lambda: nat) returns (r: Result<Log, Error>)
    ensures r.Ok? <==> |bits| == lambda + 1
    ensures r.Ok? ==> r.value == Chord(curve, base, correctionGenerator, lambda).Running(bits, lambda + 1)
    ensures r.Ok? && lambda > 0 ==> Cong(curve.order, r.value, Times(Number(bits), base))
  {
    if |bits| != lambda + 1 {
      return Err(ProofVerificationFailed);
    }
    ghost var c := Chord(curve, base, correctionGenerator, lambda);
    var cFirst := correctionGenerator;
    var cMid := Times(2, correctionGenerator);
    var cLast := Times(ChordCj(lambda, lambda, curve.order), correctionGenerator);
    var pj := base;
    var l := 0;
    PowerDoubles(c, 0);
    for j := 0 to lambda + 1
      invariant pj == c.Power(j) && l == c.Running(bits, j)
    {
      var cj := if j == 0 then cFirst else if j < lambda then cMid else cLast;
      TimesUnits(correctionGenerator);
      PowerDoubles(c, j);
      var delta := if bits[j] then pj + cj else cj;
      l := if j == 0 then delta else l + delta;
      pj := pj + pj;
    }
    if lambda > 0 {
      c.RunningIsMultiple(bits);
    }
    r := Ok(l);
  }

  // ----- the prover's witness -----

  const CHORD_CHECKPOINT_INTERVAL: nat := 16

  predicate IsCheckpointWindow(w: nat, numWindows: nat) {
    w % CHORD_CHECKPOINT_INTERVAL == 0 || w == numWindows
  }

  function CheckpointCount(numWindows: nat): nat {
    var full := numWindows / CHORD_CHECKPOINT_INTERVAL;
    if numWindows % CHORD_CHECKPOINT_INTERVAL == 0 then full else full + 1
  }

  // Checkpoints among the first w windows.
  function CheckpointsTo(w: nat, numWindows: nat): nat {
    if w == 0 then 0 else CheckpointsTo(w - 1, numWindows) + if IsCheckpointWindow(w, numWindows) then 1 else 0
  }

  lemma {:induction false} CheckpointsBefore(w: nat, numWindows: nat)
    requires w < numWindows
    ensures CheckpointsTo(w, numWindows) == w / CHORD_CHECKPOINT_INTERVAL
  {
    if w > 0 {
      CheckpointsBefore(w - 1, numWindows);
    }
  }

  // The closed form counts the checkpoint windows.
  lemma CheckpointCountIs(numWindows: nat)
    ensures CheckpointCount(numWindows) == CheckpointsTo(numWindows, numWindows)
  {
    if numWindows > 0 {
      CheckpointsBefore(numWindows - 1, numWindows);
    }
  }

  datatype ChordWitness = ChordWitness(checkpointCoords: seq<Affine>, slopes: seq<Scalar>, denominators: seq<Scalar>)

  function CheckpointCoords(c: Chord, bits: seq<bool>, w: nat): (r: seq<Affine>)
    requires 2 * w < |bits| == c.lambda + 1
    ensures |r| == CheckpointsTo(w, c.lambda / 2)
  {
    if w == 0 then []
    else CheckpointCoords(c, bits, w - 1) + if IsCheckpointWindow(w, c.lambda / 2) then [c.curve.at(c.Point(bits, w))] else []
  }

  // The slope of the chord of window w, and the difference it is divided by.
  function WindowSlope(c: Chord, bits: seq<bool>, w: nat): Scalar
    requires 0 < w && 2 * w < |bits|
  {
    Slope(c.curve.at(c.Point(bits, w - 1)), c.curve.at(c.WindowDelta(bits, w)))
  }

  function WindowDenominator(c: Chord, bits: seq<bool>, w: nat): Scalar
    requires 0 < w && 2 * w < |bits|
  {
    Sub(c.curve.at(c.Point(bits, w - 1)).x, c.curve.at(c.WindowDelta(bits, w)).x)
  }

  function ComputedWitness(c: Chord, bits: seq<bool>): (w: ChordWitness)
    requires |bits| == c.lambda + 1
    ensures |w.slopes| == |w.denominators| == c.lambda / 2 && |w.checkpointCoords| == CheckpointsTo(c.lambda / 2, c.lambda / 2)
  {
    var n := c.lambda / 2;
    ChordWitness(CheckpointCoords(c, bits, n),
      seq(n, i requires 0 <= i < n => WindowSlope(c, bits, i + 1)),
      seq(n, i requires 0 <= i < n => WindowDenominator(c, bits, i + 1)))
  }

  function FoldedWitness(c: Chord, bits: seq<bool>, n: nat): (w: ChordWitness)
    requires |bits| == c.lambda + 1
    ensures |w.slopes| == |w.denominators| == c.lambda / 2 && |w.checkpointCoords| == CheckpointsTo(c.lambda / 2, c.lambda / 2)
    decreases n
  {
    if n == 0 then ComputedWitness(c, bits) else FoldedWitness(c, bits, n - 1)
  }

  // The witness for these bits, folded as the tables are.
  function WitnessOf(c: Chord, bits: seq<bool>): (w: ChordWitness)
    requires |bits| == c.lambda + 1
    ensures |w.slopes| == |w.denominators| == c.lambda / 2 && |w.checkpointCoords| == CheckpointsTo(c.lambda / 2, c.lambda / 2)
  {
    FoldedWitness(c, bits, q)
  }

  lemma UnfoldWitness(c: Chord, bits: seq<bool>, n: nat)
    requires |bits| == c.lambda + 1
    ensures FoldedWitness(c, bits, n) == ComputedWitness(c, bits)
    decreases n
  {
  }

  lemma WitnessIs(c: Chord, bits: seq<bool>)
    requires |bits| == c.lambda + 1
    ensures WitnessOf(c, bits) == ComputedWitness(c, bits)
  {
    UnfoldWitness(c, bits, q);
  }

  predicate FiniteTo(c: Chord, bits: seq<bool>, w: nat)
    requires 2 * w < |bits|
  {
    && (forall v :: 0 <= v <= w ==> !c.curve.IsIdentity(c.Point(bits, v)))
    && (forall v :: 1 <= v <= w ==> !c.curve.IsIdentity(c.WindowDelta(bits, v)))
  }

  // On a lawful curve the tables rule the identity out of a regular chain.
  lemma RegularIsFinite(c: Chord, bits: seq<bool>, w: nat)
    requires c.curve.Lawful() && c.Tabulable() && |bits| == c.lambda + 1 && 2 * w <= c.lambda && c.RegularTo(bits, w)
    ensures FiniteTo(c, bits, w)
  {
    forall v: nat | v <= w
      ensures !c.curve.IsIdentity(c.Point(bits, v))
      ensures v > 0 ==> !c.curve.IsIdentity(c.WindowDelta(bits, v))
    {
      assert c.RegularTo(bits, v);
      c.PointsAreFinite(bits, v);
    }
  }

  // Running points and combined deltas, by point arithmetic.
  method Accumulate(bits: seq<bool>, precomp: ChordPrecomp, ghost c: Chord) returns (points: seq<Log>, deltas: seq<Log>)
    requires precomp == Tables(c) && |bits| == c.lambda + 1 && c.lambda > 0 && c.lambda % 2 == 0
    ensures |points| == c.lambda / 2 + 1 && forall w :: 0 <= w <= c.lambda / 2 ==> points[w] == c.Point(bits, w)
    ensures |deltas| == c.lambda / 2 && forall w :: 0 <= w < c.lambda / 2 ==> deltas[w] == c.WindowDelta(bits, w + 1)
  {
    var lambda := |precomp.powers| - 1;
    var numWindows := lambda / 2;
    TablesAre(c);
    CorrectionAt(c, 0);
    assert c.Running(bits, 0) == 0;
    var l := if bits[0] then precomp.powers[0] + precomp.corrections[0] else precomp.corrections[0];
    points, deltas := [l], [];
    for w := 1 to numWindows + 1
      invariant |points| == w && |deltas| == w - 1 && l == points[w - 1]
      invariant forall v :: 0 <= v < w ==> points[v] == c.Point(bits, v)
      invariant forall v :: 0 <= v < w - 1 ==> deltas[v] == c.WindowDelta(bits, v + 1)
    {
      var j1, j2 := 2 * w - 1, 2 * w;
      CorrectionAt(c, j1);
      CorrectionAt(c, j2);
      var delta := precomp.corrections[if j1 < lambda then 1 else 2] + precomp.corrections[if j2 < lambda then 1 else 2];
      if bits[j1] {
        delta := delta + precomp.powers[j1];
      }
      if bits[j2] {
        delta := delta + precomp.powers[j2];
      }
      c.PointStep(bits, w);
      deltas := deltas + [delta];
      l := l + delta;
      points := points + [l];
    }
  }

  method ChordComputeWitnessPrecomputed(curve: Curve, bits: seq<bool>, precomp: ChordPrecomp, ghost c: Chord) returns (r: Result<ChordWitness, Error>)
    requires precomp == Tables(c) && c.curve == curve && c.lambda > 0 && c.lambda % 2 == 0
    ensures r.Ok? <==> |bits| == c.lambda + 1 && FiniteTo(c, bits, c.lambda / 2) && c.RegularTo(bits, c.lambda / 2)
    ensures r.Ok? ==> r.value == WitnessOf(c, bits)
    ensures r.Err? ==> r.error == ProofVerificationFailed
  {
    var lambda := |precomp.powers| - 1;
    if |bits| != lambda + 1 {
      return Err(ProofVerificationFailed);
    }
    var numWindows := lambda / 2;
    var points, deltas := Accumulate(bits, precomp, c);
    FiniteConcat(curve, points, deltas);
    FiniteChain(c, bits, points, deltas);
    var affines := BatchAffine(curve, points + deltas);
    if affines.Err? {
      return Err(affines.error);
    }
    var coords, deltaCoords := affines.value[..numWindows + 1], affines.value[numWindows + 1..];
    r := Slopes(coords, deltaCoords, bits, c);
  }

  lemma FiniteChain(c: Chord, bits: seq<bool>, points: seq<Log>, deltas: seq<Log>)
    requires |bits| == c.lambda + 1 && |points| == c.lambda / 2 + 1 && |deltas| == c.lambda / 2
    requires forall w :: 0 <= w <= c.lambda / 2 ==> points[w] == c.Point(bits, w)
    requires forall w :: 0 <= w < c.lambda / 2 ==> deltas[w] == c.WindowDelta(bits, w + 1)
    ensures AllFinite(c.curve, points) && AllFinite(c.curve, deltas) <==> FiniteTo(c, bits, c.lambda / 2)
  {
    if AllFinite(c.curve, points) && AllFinite(c.curve, deltas) {
      forall v | 1 <= v <= c.lambda / 2
        ensures !c.curve.IsIdentity(c.WindowDelta(bits, v))
      {
        assert deltas[v - 1] == c.WindowDelta(bits, v);
      }
    }
  }

  // The coordinates at the checkpoint windows.
  method FilterCheckpoints(coords: seq<Affine>, bits: seq<bool>, ghost c: Chord) returns (checkpoints: seq<Affine>)
    requires |bits| == c.lambda + 1 && |coords| == c.lambda / 2 + 1
    requires forall w :: 0 <= w < |coords| ==> coords[w] == c.curve.at(c.Point(bits, w))
    ensures checkpoints == CheckpointCoords(c, bits, c.lambda / 2)
  {
    checkpoints := [];
    for w := 1 to |coords|
      invariant checkpoints == CheckpointCoords(c, bits, w - 1)
    {
      if IsCheckpointWindow(w, |coords| - 1) {
        checkpoints := checkpoints + [coords[w]];
      }
    }
  }

  // Slopes through one batch inversion, and the checkpoints' coordinates.
  method Slopes(coords: seq<Affine>, deltaCoords: seq<Affine>, bits: seq<bool>, ghost c: Chord) returns (r: Result<ChordWitness, Error>)
    requires |bits| == c.lambda + 1 && |coords| == |deltaCoords| + 1 == c.lambda / 2 + 1
    requires forall w :: 0 <= w < |coords| ==> coords[w] == c.curve.at(c.Point(bits, w))
    requires forall w :: 0 <= w < |deltaCoords| ==> deltaCoords[w] == c.curve.at(c.WindowDelta(bits, w + 1))
    ensures r.Ok? <==> c.RegularTo(bits, c.lambda / 2)
    ensures r.Ok? ==> r.value == WitnessOf(c, bits)
    ensures r.Err? ==> r.error == ProofVerificationFailed
  {
    var numWindows := |deltaCoords|;
    var differences := Differences(coords, deltaCoords, bits, c);
    if differences.Err? {
      return Err(differences.error);
    }
    var (dxs, dys) := differences.value;
    var slopes := seq(numWindows, i requires 0 <= i < numWindows => Mul(dys[i], Inverse(dxs[i])));
    var checkpoints := FilterCheckpoints(coords, bits, c);
    WitnessIs(c, bits);
    r := Ok(ChordWitness(checkpoints, slopes, dxs));
  }

  // The denominators and numerators; a vanishing denominator is refused.
  method Differences(coords: seq<Affine>, deltaCoords: seq<Affine>, bits: seq<bool>, ghost c: Chord) returns (r: Result<(seq<Scalar>, seq<Scalar>), Error>)
    requires |bits| == c.lambda + 1 && |coords| == |deltaCoords| + 1 == c.lambda / 2 + 1
    requires forall w :: 0 <= w < |coords| ==> coords[w] == c.curve.at(c.Point(bits, w))
    requires forall w :: 0 <= w < |deltaCoords| ==> deltaCoords[w] == c.curve.at(c.WindowDelta(bits, w + 1))
    ensures r.Ok? <==> c.RegularTo(bits, c.lambda / 2)
    ensures r.Ok? ==> |r.value.0| == |r.value.1| == |deltaCoords| && forall v :: 0 <= v < |deltaCoords| ==>
      r.value.0[v] == WindowDenominator(c, bits, v + 1) && r.value.1[v] == Sub(coords[v].y, deltaCoords[v].y)
    ensures r.Err? ==> r.error == ProofVerificationFailed
  {
    var numWindows := |deltaCoords|;
    var dxs, dys: seq<Scalar> := [], [];
    for w := 1 to numWindows + 1
      invariant |dxs| == |dys| == w - 1 && c.RegularTo(bits, w - 1)
      invariant forall v :: 0 <= v < w - 1 ==>
        dxs[v] == WindowDenominator(c, bits, v + 1) && dys[v] == Sub(coords[v].y, deltaCoords[v].y)
    {
      var dx := Sub(coords[w - 1].x, deltaCoords[w - 1].x);
      var dy := Sub(coords[w - 1].y, deltaCoords[w - 1].y);
      LinearCombinations.ZeroDifference(coords[w - 1].x, deltaCoords[w - 1].x);
      if dx == 0 {
        return Err(ProofVerificationFailed);
      }
      dxs := dxs + [dx];
      dys := dys + [dy];
    }
    r := Ok((dxs, dys));
  }
}
