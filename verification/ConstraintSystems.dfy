// The constraint systems a circuit is built on: r1cs/constraint_system.rs, with the
// prover's and verifier's implementations in r1cs/prover.rs and r1cs/verifier.rs.
module ConstraintSystems {
  import opened Wrappers
  import opened Scalars
  import opened LinearCombinations

  datatype R1CSError = FormatError | MissingAssignment | VerificationError

  // A snapshot. Only a prover has values for the wires.
  datatype System = System(proving: bool, gates: nat, pending: Option<nat>, constraints: seq<LinearCombination>, left: seq<Scalar>, right: seq<Scalar>) {
    // The prover's own values.
    function Own(): Wires {
      Wires((i: nat) => if i < |left| then left[i] else 0, (i: nat) => if i < |right| then right[i] else 0)
    }

    // Allocated, and so free to appear in constraints.
    predicate Known(v: Variable) {
      match v
      case MultiplierLeft(i) => i < gates
      case MultiplierRight(i) => i < gates && pending != Some(i)
      case MultiplierOutput(i) => i < gates && pending != Some(i)
      case One => true
    }

    predicate KnownTerms(lc: LinearCombination) {
      forall i :: 0 <= i < |lc| ==> Known(lc[i].variable)
    }

    predicate FoldedWellFormed(n: nat)
      decreases n
    {
      if n == 0 then Consistent() else FoldedWellFormed(n - 1)
    }

    predicate WellFormed() {
      FoldedWellFormed(q)
    }

    lemma UnfoldWellFormed(n: nat)
      ensures FoldedWellFormed(n) <==> Consistent()
      decreases n
    {
    }

    lemma WellFormedMeans()
      ensures WellFormed() <==> Consistent()
    {
      UnfoldWellFormed(q);
    }

    predicate Consistent() {
      && (pending.Some? ==> pending.value < gates)
      && (forall i :: 0 <= i < |constraints| ==> KnownTerms(constraints[i]))
      && (proving ==> |left| == |right| == gates)
    }

    // The prover's values meet every constraint so far.
    predicate Honest() {
      proving && Own().Satisfies(constraints)
    }
  }

  // Later snapshots keep every constraint and the value of every allocated variable.
  ghost predicate Grown(s: System, s': System) {
    && s.proving == s'.proving
    && s.constraints <= s'.constraints
    && forall v: Variable :: s.Known(v) ==> s'.Known(v) && s'.Own().Value(v) == s.Own().Value(v)
  }

  lemma GrownEval(s: System, s': System, lc: LinearCombination)
    requires Grown(s, s') && s.KnownTerms(lc)
    ensures s'.KnownTerms(lc) && s'.Own().Eval(lc) == s.Own().Eval(lc)
  {
    EvalAgree(s.Own(), s'.Own(), lc);
  }

  lemma GrownSatisfies(s: System, s': System)
    requires Grown(s, s') && s.WellFormed()
    ensures s'.Own().Satisfies(s.constraints) <==> s.Own().Satisfies(s.constraints)
  {
    s.WellFormedMeans();
    s.Own().SatisfiesAll(s.constraints);
    s'.Own().SatisfiesAll(s.constraints);
    forall i | 0 <= i < |s.constraints|
      ensures s'.Own().Eval(s.constraints[i]) == s.Own().Eval(s.constraints[i])
    {
      GrownEval(s, s', s.constraints[i]);
    }
  }

  // One more multiplier.
  function Widened(s: System, assignment: Option<(Scalar, Scalar)>): System {
    if s.proving && assignment.Some? then
      s.(gates := s.gates + 1, left := s.left + [assignment.value.0], right := s.right + [assignment.value.1])
    else s.(gates := s.gates + 1)
  }

  class ConstraintSystem {
    const proving: bool
    var gates: nat
    var pendingMultiplier: Option<nat>
    var constraints: seq<LinearCombination>
    var left: seq<Scalar>
    var right: seq<Scalar>

    constructor (proving: bool)
      ensures State() == System(proving, 0, None, [], [], [])
      ensures State().WellFormed() && (proving ==> State().Honest())
    {
      this.proving := proving;
      gates, pendingMultiplier, constraints, left, right := 0, None, [], [], [];
      new;
      State().WellFormedMeans();
      State().Own().SatisfiesAll([]);
    }

    function State(): System
      reads this
    {
      System(proving, gates, pendingMultiplier, constraints, left, right)
    }

    // A multiplier on its own.
    method AllocateMultiplier(assignment: Option<(Scalar, Scalar)>) returns (r: Result<(Variable, Variable, Variable), R1CSError>)
      requires State().WellFormed()
      modifies this
      ensures r.Err? <==> proving && assignment.None?
      ensures r.Err? ==> State() == old(State()) && r.error == MissingAssignment
      ensures r.Ok? ==>
        && r.value == (MultiplierLeft(old(gates)), MultiplierRight(old(gates)), MultiplierOutput(old(gates)))
        && State() == Widened(old(State()), assignment)
        && State().Known(r.value.0) && State().Known(r.value.1) && State().Known(r.value.2)
        && (proving ==> State().Own().Value(r.value.0) == assignment.value.0 && State().Own().Value(r.value.1) == assignment.value.1)
      ensures State().WellFormed() && Grown(old(State()), State())
      ensures State().Honest() <==> old(State()).Honest()
    {
      if proving && assignment.None? {
        return Err(MissingAssignment);
      }
      ghost var s := State();
      if proving {
        left, right := left + [assignment.value.0], right + [assignment.value.1];
      }
      s.WellFormedMeans();
      var i := gates;
      gates := gates + 1;
      State().WellFormedMeans();
      GrownSatisfies(s, State());
      r := Ok((MultiplierLeft(i), MultiplierRight(i), MultiplierOutput(i)));
    }

    // One wire; two of them in a row share a multiplier.
    method Allocate(assignment: Option<Scalar>) returns (r: Result<Variable, R1CSError>)
      requires State().WellFormed()
      modifies this
      ensures r.Err? <==> proving && assignment.None?
      ensures r.Err? ==> State() == old(State()) && r.error == MissingAssignment
      ensures r.Ok? ==>
        && gates == old(gates) + (if old(pendingMultiplier).None? then 1 else 0)
        && (pendingMultiplier.None? <==> old(pendingMultiplier).Some?)
        && constraints == old(constraints)
        && State().Known(r.value) && (proving ==> State().Own().Value(r.value) == assignment.value)
      ensures State().WellFormed() && Grown(old(State()), State())
      ensures State().Honest() <==> old(State()).Honest()
    {
      if proving && assignment.None? {
        return Err(MissingAssignment);
      }
      ghost var s := State();
      s.WellFormedMeans();
      match pendingMultiplier {
        case None =>
          if proving {
            left, right := left + [assignment.value], right + [0];
          }
          pendingMultiplier := Some(gates);
          r := Ok(MultiplierLeft(gates));
          gates := gates + 1;
        case Some(i) =>
          if proving {
            right := right[i := assignment.value];
          }
          pendingMultiplier := None;
          r := Ok(MultiplierRight(i));
      }
      State().WellFormedMeans();
      GrownSatisfies(s, State());
    }

    // A multiplier with its inputs constrained to l and r.
    method Multiply(l: LinearCombination, r: LinearCombination) returns (lVar: Variable, rVar: Variable, oVar: Variable)
      requires State().WellFormed() && State().KnownTerms(l) && State().KnownTerms(r)
      modifies this
      ensures (lVar, rVar, oVar) == (MultiplierLeft(old(gates)), MultiplierRight(old(gates)), MultiplierOutput(old(gates)))
      ensures gates == old(gates) + 1 && pendingMultiplier == old(pendingMultiplier)
      ensures State().WellFormed() && Grown(old(State()), State())
      ensures State().Known(lVar) && State().Known(rVar) && State().Known(oVar)
      ensures State().Honest() <==> old(State()).Honest()
      ensures forall w: Wires :: w.Satisfies(constraints) <==>
        w.Satisfies(old(constraints)) && w.Value(lVar) == w.Eval(l) && w.Value(rVar) == w.Eval(r)
    {
      ghost var s := State();
      var assignment := if proving then Some((State().Own().Eval(l), State().Own().Eval(r))) else None;
      var wires := AllocateMultiplier(assignment);
      lVar, rVar, oVar := wires.value.0, wires.value.1, wires.value.2;
      ghost var s' := State();
      GrownEval(s, s', l);
      GrownEval(s, s', r);
      forall w: Wires
        ensures w.Eval(Minus(l, Var(lVar))) == 0 <==> w.Value(lVar) == w.Eval(l)
        ensures w.Eval(Minus(r, Var(rVar))) == 0 <==> w.Value(rVar) == w.Eval(r)
      {
        EvalMinus(w, l, Var(lVar));
        EvalMinus(w, r, Var(rVar));
        EvalTerm(w, lVar, 1);
        EvalTerm(w, rVar, 1);
      }
      Constrain(Minus(l, Var(lVar)));
      Constrain(Minus(r, Var(rVar)));
    }

    // Enforce lc = 0.
    method Constrain(lc: LinearCombination)
      requires State().WellFormed() && State().KnownTerms(lc)
      modifies this
      ensures State() == old(State()).(constraints := old(State()).constraints + [lc])
      ensures State().WellFormed() && Grown(old(State()), State())
      ensures State().Honest() <==> old(State()).Honest() && old(State()).Own().Eval(lc) == 0
      ensures forall w: Wires :: w.Satisfies(constraints) <==> w.Satisfies(old(constraints)) && w.Eval(lc) == 0
    {
      ghost var s := State();
      s.WellFormedMeans();
      constraints := constraints + [lc];
      assert State().Own() == s.Own();
      State().WellFormedMeans();
      SatisfiesPush(s.Own(), s.constraints, lc);
      forall w: Wires
        ensures w.Satisfies(constraints) <==> w.Satisfies(s.constraints) && w.Eval(lc) == 0
      {
        SatisfiesPush(w, s.constraints, lc);
      }
    }
  }
}
