// Circuit variables and linear combinations of them: r1cs/linear_combination.rs.
//
// Circuits are over the field of residues modulo q.
module LinearCombinations {
  import opened Scalars

  // An input or the output of a multiplier, or the constant one.
  datatype Variable = MultiplierLeft(gate: nat) | MultiplierRight(gate: nat) | MultiplierOutput(gate: nat) | One

  datatype Term = Term(variable: Variable, coefficient: Scalar)

  type LinearCombination = seq<Term>

  // Values of every multiplier's inputs; the output is their product.
  datatype Wires = Wires(left: nat -> Scalar, right: nat -> Scalar) {
    function Value(v: Variable): Scalar {
      match v
      case MultiplierLeft(i) => left(i)
      case MultiplierRight(i) => right(i)
      case MultiplierOutput(i) => Mul(left(i), right(i))
      case One => 1
    }

    // Over the integers, from the front.
    function Terms(lc: LinearCombination): int {
      if |lc| == 0 then 0
      else Terms(lc[..|lc| - 1]) + Times(lc[|lc| - 1].coefficient, Value(lc[|lc| - 1].variable))
    }

    // Folded, as products and remainders are.
    function FoldedSum(lc: LinearCombination, n: nat): int
      decreases n
    {
      if n == 0 then Terms(lc) else FoldedSum(lc, n - 1)
    }

    function Sum(lc: LinearCombination): int {
      FoldedSum(lc, q)
    }

    lemma UnfoldSum(lc: LinearCombination, n: nat)
      ensures FoldedSum(lc, n) == Terms(lc)
      decreases n
    {
    }

    lemma Sums()
      ensures forall lc: LinearCombination :: Sum(lc) == Terms(lc)
    {
      forall lc: LinearCombination
        ensures Sum(lc) == Terms(lc)
      {
        UnfoldSum(lc, q);
      }
    }

    function Eval(lc: LinearCombination): Scalar {
      Red(Sum(lc))
    }

    predicate FoldedSatisfies(constraints: seq<LinearCombination>, n: nat)
      decreases n
    {
      if n == 0 then forall i :: 0 <= i < |constraints| ==> Eval(constraints[i]) == 0
      else FoldedSatisfies(constraints, n - 1)
    }

    predicate Satisfies(constraints: seq<LinearCombination>) {
      FoldedSatisfies(constraints, q)
    }

    lemma UnfoldSatisfies(constraints: seq<LinearCombination>, n: nat)
      ensures FoldedSatisfies(constraints, n) <==> forall i :: 0 <= i < |constraints| ==> Eval(constraints[i]) == 0
      decreases n
    {
    }

    lemma SatisfiesAll(constraints: seq<LinearCombination>)
      ensures Satisfies(constraints) <==> forall i :: 0 <= i < |constraints| ==> Eval(constraints[i]) == 0
    {
      UnfoldSatisfies(constraints, q);
    }
  }

  function Var(v: Variable): LinearCombination {
    [Term(v, 1)]
  }

  function Constant(c: Scalar): LinearCombination {
    [Term(One, c)]
  }

  function Scaled(v: Variable, c: Scalar): LinearCombination {
    [Term(v, c)]
  }

  function Plus(a: LinearCombination, b: LinearCombination): LinearCombination {
    a + b
  }

  function Negate(a: LinearCombination): (r: LinearCombination)
    ensures |r| == |a|
  {
    seq(|a|, i requires 0 <= i < |a| => a[i].(coefficient := Neg(a[i].coefficient)))
  }

  function Minus(a: LinearCombination, b: LinearCombination): LinearCombination {
    a + Negate(b)
  }

  lemma {:induction false} SumConcat(w: Wires, a: LinearCombination, b: LinearCombination)
    ensures w.Sum(a + b) == w.Sum(a) + w.Sum(b)
  {
    w.Sums();
    if |b| == 0 {
      assert a + b == a;
    } else {
      var n := |b| - 1;
      SumConcat(w, a, b[..n]);
      assert (a + b)[..|a| + n] == a + b[..n];
    }
  }

  lemma {:induction false} SumNegate(w: Wires, a: LinearCombination)
    ensures Red(w.Sum(Negate(a))) == Red(0 - w.Sum(a))
  {
    w.Sums();
    if |a| > 0 {
      var n := |a| - 1;
      SumNegate(w, a[..n]);
      assert Negate(a)[..n] == Negate(a[..n]);
      NegatedProduct(a[n].coefficient, w.Value(a[n].variable));
      RedAdd(w.Sum(Negate(a[..n])), 0 - w.Sum(a[..n]), Times(Neg(a[n].coefficient), w.Value(a[n].variable)),
             0 - Times(a[n].coefficient, w.Value(a[n].variable)));
    }
  }

  lemma NegatedProduct(c: Scalar, v: Scalar)
    ensures Red(Times(Neg(c), v)) == Red(0 - Times(c, v))
  {
    RedMul(Neg(c), 0 - c, v, v);
    TimesDistributes(v, 0, c);
    TimesUnits(v);
  }

  // The operators evaluate to the operations of the field.
  lemma EvalPlus(w: Wires, a: LinearCombination, b: LinearCombination)
    ensures w.Eval(Plus(a, b)) == Add(w.Eval(a), w.Eval(b))
  {
    SumConcat(w, a, b);
    RedAdd(w.Sum(a), w.Eval(a), w.Sum(b), w.Eval(b));
  }

  lemma EvalMinus(w: Wires, a: LinearCombination, b: LinearCombination)
    ensures w.Eval(Minus(a, b)) == Sub(w.Eval(a), w.Eval(b))
    ensures w.Eval(Minus(a, b)) == 0 <==> w.Eval(a) == w.Eval(b)
  {
    SumConcat(w, a, Negate(b));
    SumNegate(w, b);
    RedAdd(w.Sum(a), w.Eval(a), w.Sum(Negate(b)), 0 - w.Sum(b));
    RedSub(w.Eval(a), w.Eval(a), w.Sum(b), w.Eval(b));
    assert w.Eval(a) + (0 - w.Sum(b)) == w.Eval(a) - w.Sum(b);
    ZeroDifference(w.Eval(a), w.Eval(b));
  }

  lemma ZeroDifference(x: Scalar, y: Scalar)
    ensures Sub(x, y) == 0 <==> x == y
  {
    if Sub(x, y) == 0 {
      RedAdd(x - y, 0, y, y);
    }
  }

  lemma EvalTerm(w: Wires, v: Variable, c: Scalar)
    ensures w.Eval(Scaled(v, c)) == Mul(c, w.Value(v))
    ensures w.Eval(Var(v)) == w.Value(v)
    ensures w.Eval(Constant(c)) == c
  {
    TimesUnits(w.Value(v));
    TimesUnits(c);
    SumOne(w, Term(v, c));
    SumOne(w, Term(v, 1));
    SumOne(w, Term(One, c));
  }

  lemma SumOne(w: Wires, t: Term)
    ensures w.Sum([t]) == Times(t.coefficient, w.Value(t.variable))
  {
    w.Sums();
    assert w.Terms([t][..0]) == 0;
  }

  lemma EvalEmpty(w: Wires)
    ensures w.Eval([]) == 0
  {
    w.Sums();
  }

  lemma VarEquals(v: Variable, lc: LinearCombination)
    ensures forall w: Wires :: w.Eval(Minus(Var(v), lc)) == 0 <==> w.Value(v) == w.Eval(lc)
  {
    forall w: Wires
      ensures w.Eval(Minus(Var(v), lc)) == 0 <==> w.Value(v) == w.Eval(lc)
    {
      EvalMinus(w, Var(v), lc);
      EvalTerm(w, v, 1);
    }
  }

  lemma EqualsVar(lc: LinearCombination, v: Variable)
    ensures forall w: Wires :: w.Eval(Minus(lc, Var(v))) == 0 <==> w.Eval(lc) == w.Value(v)
  {
    forall w: Wires
      ensures w.Eval(Minus(lc, Var(v))) == 0 <==> w.Eval(lc) == w.Value(v)
    {
      EvalMinus(w, lc, Var(v));
      EvalTerm(w, v, 1);
    }
  }

  lemma VarIsValue(v: Variable)
    ensures forall w: Wires :: w.Eval(Var(v)) == w.Value(v)
  {
    forall w: Wires
      ensures w.Eval(Var(v)) == w.Value(v)
    {
      EvalTerm(w, v, 1);
    }
  }

  lemma SatisfiesPush(w: Wires, constraints: seq<LinearCombination>, lc: LinearCombination)
    ensures w.Satisfies(constraints + [lc]) <==> w.Satisfies(constraints) && w.Eval(lc) == 0
  {
    var all := constraints + [lc];
    w.SatisfiesAll(constraints);
    w.SatisfiesAll(all);
    assert all[|constraints|] == lc;
    assert forall i :: 0 <= i < |constraints| ==> all[i] == constraints[i];
  }

  // Wires that agree on the variables of lc give it the same value.
  predicate Agree(w: Wires, w': Wires, lc: LinearCombination) {
    forall i :: 0 <= i < |lc| ==> w.Value(lc[i].variable) == w'.Value(lc[i].variable)
  }

  lemma {:induction false} EvalAgree(w: Wires, w': Wires, lc: LinearCombination)
    requires Agree(w, w', lc)
    ensures w.Sum(lc) == w'.Sum(lc) && w.Eval(lc) == w'.Eval(lc)
  {
    w.Sums();
    w'.Sums();
    if |lc| > 0 {
      EvalAgree(w, w', lc[..|lc| - 1]);
    }
  }
}
