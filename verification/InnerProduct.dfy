// The inner-product argument: inner_product_proof.rs.
//
// `Prove` folds the generators every round; it is the plain protocol that the
// prover in InnerProductProver.dfy refines. Here the verifier is shown to accept it.
module InnerProduct {
  import opened Wrappers
  import opened Bits
  import opened Scalars
  import opened Vectors
  import opened Folding

  // A compressed point; some byte strings decompress to no point.
  datatype Encoding = Encoded(point: Element) | Undecodable(bytes: seq<bv8>)

  // The transcript holds everything appended to it so far, and a challenge is an
  // arbitrary function of that.
  datatype Event =
    | DomainSeparator(n: nat)
    | Append(name: string, point: Encoding)
    | AppendScalar(name: string, value: Scalar)
    | Drawn(name: string)

  type Log = seq<Event>
  type Oracle = Log -> Scalar

  datatype Proof = Proof(ls: seq<Encoding>, rs: seq<Encoding>, a: Scalar, b: Scalar)

  // One folding round: the cross terms sent and the challenge drawn.
  datatype Round = Round(l: Element, r: Element, u: Scalar)

  datatype Run = Run(rounds: seq<Round>, a: Scalar, b: Scalar, log: Log)

  // ----- the plain protocol -----

  // The bases and vectors at the start of a round.
  datatype Instance = Instance(Q: Element, G: seq<Element>, H: seq<Element>, a: seq<Scalar>, b: seq<Scalar>)

  predicate Sized(x: Instance, n: nat) {
    |x.G| == |x.H| == |x.a| == |x.b| == n
  }

  // L = <a_L, G_R> + <b_R, H_L> + <a_L, b_R> Q
  function LeftPoint(x: Instance): Element
    requires Sized(x, |x.a|) && |x.a| % 2 == 0
  {
    Msm(Low(x.a) + High(x.b) + [Red(Dot(Low(x.a), High(x.b)))], High(x.G) + Low(x.H) + [x.Q])
  }

  // R = <a_R, G_L> + <b_L, H_R> + <a_R, b_L> Q
  function RightPoint(x: Instance): Element
    requires Sized(x, |x.a|) && |x.a| % 2 == 0
  {
    Msm(High(x.a) + Low(x.b) + [Red(Dot(High(x.a), Low(x.b)))], Low(x.G) + High(x.H) + [x.Q])
  }

  // a' = u a_L + u^-1 a_R and b' = u^-1 b_L + u b_R, with the bases folded oppositely.
  function Folded(x: Instance, u: Scalar): (r: Instance)
    requires Sized(x, |x.a|) && |x.a| % 2 == 0
    ensures Sized(r, |x.a| / 2)
  {
    var ui := Inverse(u);
    Instance(x.Q, Fold(x.G, ui, u), Fold(x.H, u, ui), Fold(x.a, u, ui), Fold(x.b, ui, u))
  }

  function Sent(log: Log, l: Element, r: Element): Log {
    log + [Append("L", Encoded(l)), Append("R", Encoded(r)), Drawn("u")]
  }

  function FirstRound(o: Oracle, log: Log, x: Instance): Round
    requires Sized(x, |x.a|) && |x.a| % 2 == 0
  {
    var l, r := LeftPoint(x), RightPoint(x);
    Round(l, r, o(Sent(log, l, r)))
  }

  function Prove(o: Oracle, log: Log, x: Instance, k: nat): (run: Run)
    requires Sized(x, Pow2(k))
    ensures |run.rounds| == k
    decreases k
  {
    if k == 0 then Run([], x.a[0], x.b[0], log)
    else
      var round := FirstRound(o, log, x);
      var rest := Prove(o, Sent(log, round.l, round.r), Folded(x, round.u), k - 1);
      rest.(rounds := [round] + rest.rounds)
  }

  function Lefts(rounds: seq<Round>): (r: seq<Encoding>)
    ensures |r| == |rounds|
  {
    seq(|rounds|, i requires 0 <= i < |rounds| => Encoded(rounds[i].l))
  }

  function Rights(rounds: seq<Round>): (r: seq<Encoding>)
    ensures |r| == |rounds|
  {
    seq(|rounds|, i requires 0 <= i < |rounds| => Encoded(rounds[i].r))
  }

  function ProofOf(run: Run): Proof {
    Proof(Lefts(run.rounds), Rights(run.rounds), run.a, run.b)
  }

  // ----- the verifier -----

  // Draws the challenges, rejecting an identity L or R.
  function ReadRounds(o: Oracle, log: Log, ls: seq<Encoding>, rs: seq<Encoding>): Option<(seq<Scalar>, Log)>
    requires |ls| == |rs|
    decreases |ls|
  {
    if |ls| == 0 then Some(([], log))
    else if ls[0] == Encoded(Identity) || rs[0] == Encoded(Identity) then None
    else
      var log' := log + [Append("L", ls[0]), Append("R", rs[0]), Drawn("u")];
      match ReadRounds(o, log', ls[1..], rs[1..])
      case None => None
      case Some((us, end)) => Some(([o(log')] + us, end))
  }

  function Inverses(us: seq<Scalar>): (r: seq<Scalar>)
    ensures |r| == |us|
  {
    seq(|us|, i requires 0 <= i < |us| => if 0 in us then 0 else Inverse(us[i]))
  }

  function Squares(us: seq<Scalar>): (r: seq<Scalar>)
    ensures |r| == |us|
  {
    seq(|us|, i requires 0 <= i < |us| => Mul(us[i], us[i]))
  }

  function ProductOf(us: seq<int>): int {
    if |us| == 0 then 1 else Times(us[0], ProductOf(us[1..]))
  }

  // The first n entries of s, by the index-bit recurrence.
  function ClosedForm(first: Scalar, squares: seq<Scalar>, n: nat): (s: seq<Scalar>)
    requires 0 < n <= Pow2(|squares|)
    ensures |s| == n
  {
    if n == 1 then [first]
    else
      var s := ClosedForm(first, squares, n - 1);
      var i := n - 1;
      var lg := NumBits(i) - 1;
      TopBit(i, |squares|);
      s + [Mul(s[i - Pow2(lg)], squares[|squares| - 1 - lg])]
  }

  lemma TopBit(i: nat, k: nat)
    requires 0 < i < Pow2(k)
    ensures 1 <= NumBits(i) <= k && Pow2(NumBits(i) - 1) <= i < Pow2(NumBits(i))
  {
    NumBitsBounds(i);
    if NumBits(i) > k {
      Pow2Monotone(k, NumBits(i) - 1);
    }
  }

  function Reversed(s: seq<Scalar>): (r: seq<Scalar>)
    ensures |r| == |s|
  {
    seq(|s|, i requires 0 <= i < |s| => s[|s| - 1 - i])
  }

  function Weighted(c: Scalar, s: seq<Scalar>, factors: seq<Scalar>): (r: seq<Scalar>)
    requires |s| == |factors|
    ensures |r| == |s|
  {
    seq(|s|, i requires 0 <= i < |s| => Mul(Mul(c, s[i]), factors[i]))
  }

  function Negated(s: seq<Scalar>): (r: seq<Scalar>)
    ensures |r| == |s|
  {
    seq(|s|, i requires 0 <= i < |s| => Neg(s[i]))
  }

  predicate AllDecode(points: seq<Encoding>) {
    forall i :: 0 <= i < |points| ==> points[i].Encoded?
  }

  function Decompressed(points: seq<Encoding>): (r: seq<Element>)
    requires AllDecode(points)
    ensures |r| == |points|
  {
    seq(|points|, i requires 0 <= i < |points| => points[i].point)
  }

  // The point the verifier recomputes from the challenges.
  function ExpectedPoint(proof: Proof, us: seq<Scalar>, Gf: seq<Scalar>, Hf: seq<Scalar>, Q: Element, G: seq<Element>, H: seq<Element>): Element
    requires |proof.ls| == |proof.rs| == |us|
    requires |Gf| == |Hf| == |G| == |H| == Pow2(|us|)
    requires AllDecode(proof.ls) && AllDecode(proof.rs)
  {
    var uis := Inverses(us);
    var s := ClosedForm(Red(ProductOf(uis)), Squares(us), Pow2(|us|));
    Msm([Mul(proof.a, proof.b)] + Weighted(proof.a, s, Gf) + Weighted(proof.b, Reversed(s), Hf) + Negated(Squares(us)) + Negated(Squares(uis)),
        [Q] + G + H + Decompressed(proof.ls) + Decompressed(proof.rs))
  }

  predicate Accepts(o: Oracle, log: Log, proof: Proof, n: nat, Gf: seq<Scalar>, Hf: seq<Scalar>, P: Element, Q: Element, G: seq<Element>, H: seq<Element>)
    requires |proof.ls| == |proof.rs|
  {
    var k := |proof.ls|;
    && |G| == |H| == |Gf| == |Hf| == n && k < 32 && n == Pow2(k)
    && AllDecode(proof.ls) && AllDecode(proof.rs)
    && match ReadRounds(o, log + [DomainSeparator(n)], proof.ls, proof.rs)
       case None => false
       case Some((us, _)) => |us| == k && ExpectedPoint(proof, us, Gf, Hf, Q, G, H) == P
  }

  // ----- the fold algebra -----

  // <a, G> + <b, H> + <a, b> Q
  function Claim(x: Instance): int
    requires Sized(x, |x.a|)
  {
    Dot(x.a, x.G) + Dot(x.b, x.H) + Times(Dot(x.a, x.b), x.Q)
  }

  lemma DotTriple(x: seq<int>, y: seq<int>, c: int, p: seq<int>, r: seq<int>, Q: int)
    requires |x| == |p| && |y| == |r|
    ensures Dot(x + y + [c], p + r + [Q]) == Dot(x, p) + Dot(y, r) + Times(c, Q)
  {
    DotConcat(x, y, p, r);
    DotConcat(x + y, [c], p + r, [Q]);
    DotEnds([c], [Q]);
  }

  lemma ReducedTerm(sum: int, c: int, Q: int)
    ensures Red(sum + Times(Red(c), Q)) == Red(sum + Times(c, Q))
  {
    RedMul(Red(c), c, Q, Q);
    RedAdd(sum, sum, Times(Red(c), Q), Times(c, Q));
  }

  function LeftSum(x: Instance): int
    requires Sized(x, |x.a|) && |x.a| % 2 == 0
  {
    Dot(Low(x.a), High(x.G)) + Dot(High(x.b), Low(x.H)) + Times(Dot(Low(x.a), High(x.b)), x.Q)
  }

  function RightSum(x: Instance): int
    requires Sized(x, |x.a|) && |x.a| % 2 == 0
  {
    Dot(High(x.a), Low(x.G)) + Dot(Low(x.b), High(x.H)) + Times(Dot(High(x.a), Low(x.b)), x.Q)
  }

  lemma CrossPoints(x: Instance)
    requires Sized(x, |x.a|) && |x.a| % 2 == 0
    ensures LeftPoint(x) == Red(LeftSum(x)) && RightPoint(x) == Red(RightSum(x))
  {
    var cl, cr := Dot(Low(x.a), High(x.b)), Dot(High(x.a), Low(x.b));
    DotTriple(Low(x.a), High(x.b), Red(cl), High(x.G), Low(x.H), x.Q);
    DotTriple(High(x.a), Low(x.b), Red(cr), Low(x.G), High(x.H), x.Q);
    ReducedTerm(Dot(Low(x.a), High(x.G)) + Dot(High(x.b), Low(x.H)), cl, x.Q);
    ReducedTerm(Dot(High(x.a), Low(x.G)) + Dot(Low(x.b), High(x.H)), cr, x.Q);
  }

  // u^2 L + u^-2 R
  function CrossTerm(round: Round): int {
    Times(Times(round.u, round.u), round.l) + Times(Times(Inverse(round.u), Inverse(round.u)), round.r)
  }

  function CrossSum(rounds: seq<Round>): int {
    if |rounds| == 0 then 0 else CrossTerm(rounds[0]) + CrossSum(rounds[1..])
  }

  // Folding every vector changes the claim by the cross term.
  lemma RoundKeepsClaim(x: Instance, u: Scalar)
    requires Sized(x, |x.a|) && |x.a| % 2 == 0 && u != 0
    ensures Red(Claim(Folded(x, u))) == Red(Claim(x) + CrossTerm(Round(LeftPoint(x), RightPoint(x), u)))
  {
    InverseLaw(u);
    FoldedClaim(x, u);
    CrossPoints(x);
  }

  lemma FoldedClaim(x: Instance, u: Scalar)
    requires Sized(x, |x.a|) && |x.a| % 2 == 0 && Red(Times(u, Inverse(u))) == 1
    ensures
      var ui := Inverse(u);
      Red(Claim(Folded(x, u))) ==
      Red(Claim(x) + (Times(Times(u, u), Red(LeftSum(x))) + Times(Times(ui, ui), Red(RightSum(x)))))
  {
    var ui := Inverse(u);
    var G, H, a, b := x.G, x.H, x.a, x.b;
    DotFolds(a, G, u, ui);
    DotFoldsSwapped(b, H, u, ui);
    DotFolds(a, b, u, ui);
    ClaimAlgebra(x.Q, Times(u, u), Times(ui, ui),
      Dot(a, G), Dot(Low(a), High(G)), Dot(High(a), Low(G)), Dot(Fold(a, u, ui), Fold(G, ui, u)),
      Dot(b, H), Dot(High(b), Low(H)), Dot(Low(b), High(H)), Dot(Fold(b, ui, u), Fold(H, u, ui)),
      Dot(a, b), Dot(Low(a), High(b)), Dot(High(a), Low(b)), Dot(Fold(a, u, ui), Fold(b, ui, u)));
  }

  lemma DotFoldsSwapped(b: seq<int>, h: seq<int>, u: int, ui: int)
    requires |b| == |h| && |b| % 2 == 0 && Red(Times(u, ui)) == 1
    ensures Red(Dot(Fold(b, ui, u), Fold(h, u, ui))) ==
      Red(Dot(b, h) + Times(Times(u, u), Dot(High(b), Low(h))) + Times(Times(ui, ui), Dot(Low(b), High(h))))
  {
    DotFolds(h, b, u, ui);
    DotCommutes(Fold(b, ui, u), Fold(h, u, ui));
    DotCommutes(b, h);
    DotCommutes(High(b), Low(h));
    DotCommutes(Low(b), High(h));
  }

  lemma ClaimAlgebra(Q: int, uu: int, ii: int,
                     ag: int, agl: int, agr: int, ag': int,
                     bh: int, bhl: int, bhr: int, bh': int,
                     ab: int, abl: int, abr: int, ab': int)
    requires Red(ag') == Red(ag + Times(uu, agl) + Times(ii, agr))
    requires Red(bh') == Red(bh + Times(uu, bhl) + Times(ii, bhr))
    requires Red(ab') == Red(ab + Times(uu, abl) + Times(ii, abr))
    ensures Red(ag' + bh' + Times(ab', Q)) ==
      Red(ag + bh + Times(ab, Q) + (Times(uu, Red(agl + bhl + Times(abl, Q))) + Times(ii, Red(agr + bhr + Times(abr, Q)))))
  {
    var x, y, z := ag + Times(uu, agl) + Times(ii, agr), bh + Times(uu, bhl) + Times(ii, bhr), ab + Times(uu, abl) + Times(ii, abr);
    RedMul(ab', z, Q, Q);
    RedAdd(ag', x, bh', y);
    RedAdd(ag' + bh', x + y, Times(ab', Q), Times(z, Q));
    var l, r := agl + bhl + Times(abl, Q), agr + bhr + Times(abr, Q);
    RedMul(uu, uu, Red(l), l);
    RedMul(ii, ii, Red(r), r);
    RedAdd(Times(uu, Red(l)), Times(uu, l), Times(ii, Red(r)), Times(ii, r));
    var base := ag + bh + Times(ab, Q);
    RedAdd(base, base, Times(uu, Red(l)) + Times(ii, Red(r)), Times(uu, l) + Times(ii, r));
    ClaimIdentity(Q, uu, ii, ab, abl, abr, agl + bhl, agr + bhr);
    TimesDistributes(uu, agl, bhl);
    TimesDistributes(ii, agr, bhr);
  }

  lemma ClaimIdentity(Q: int, uu: int, ii: int, ab: int, abl: int, abr: int, l: int, r: int)
    ensures Times(ab + Times(uu, abl) + Times(ii, abr), Q) + Times(uu, l) + Times(ii, r) ==
      Times(ab, Q) + Times(uu, l + Times(abl, Q)) + Times(ii, r + Times(abr, Q))
  {
    TimesDistributes(Q, ab + Times(uu, abl), Times(ii, abr));
    TimesDistributes(Q, ab, Times(uu, abl));
    TimesAssociates(uu, abl, Q);
    TimesAssociates(ii, abr, Q);
    TimesDistributes(uu, l, Times(abl, Q));
    TimesDistributes(ii, r, Times(abr, Q));
  }

  // ----- all rounds -----

  // The single generator left after folding by the coefficient pairs (xs, ys).
  function FoldAll(v: seq<Element>, xs: seq<Scalar>, ys: seq<Scalar>): Element
    requires |xs| == |ys| && |v| == Pow2(|xs|)
    decreases |xs|
  {
    if |xs| == 0 then v[0] else FoldAll(Fold(v, xs[0], ys[0]), xs[1..], ys[1..])
  }

  // Entry i is the product over rounds of xs or ys by the bits of i, highest first.
  function BitProducts(xs: seq<int>, ys: seq<int>): (s: seq<int>)
    requires |xs| == |ys|
    ensures |s| == Pow2(|xs|)
  {
    if |xs| == 0 then [1]
    else
      var s := BitProducts(xs[1..], ys[1..]);
      Scale(xs[0], s) + Scale(ys[0], s)
  }

  lemma {:induction false} BitProductsFold(v: seq<Element>, xs: seq<Scalar>, ys: seq<Scalar>)
    requires |xs| == |ys| && |v| == Pow2(|xs|)
    ensures Red(Dot(BitProducts(xs, ys), v)) == FoldAll(v, xs, ys)
    decreases |xs|
  {
    if |xs| == 0 {
      DotEnds([1], v);
      TimesUnits(v[0]);
    } else {
      var s := BitProducts(xs[1..], ys[1..]);
      var v' := Fold(v, xs[0], ys[0]);
      BitProductsFold(v', xs[1..], ys[1..]);
      FoldedCross(v, xs[0], ys[0], s);
      assert v == Low(v) + High(v);
      DotConcat(Scale(xs[0], s), Scale(ys[0], s), Low(v), High(v));
      DotScale(xs[0], s, Low(v));
      DotScale(ys[0], s, High(v));
    }
  }

  function Challenges(rounds: seq<Round>): (us: seq<Scalar>)
    ensures |us| == |rounds|
  {
    seq(|rounds|, i requires 0 <= i < |rounds| => rounds[i].u)
  }

  predicate GoodRounds(rounds: seq<Round>) {
    forall i :: 0 <= i < |rounds| ==> rounds[i].u != 0 && rounds[i].l != Identity && rounds[i].r != Identity
  }

  function EachInverse(us: seq<Scalar>): (r: seq<Scalar>)
    ensures |r| == |us|
  {
    seq(|us|, i requires 0 <= i < |us| => Inverse(us[i]))
  }

  // The claim about the generators folded by all challenges.
  function FinalClaim(run: Run, x: Instance): int
    requires Sized(x, Pow2(|run.rounds|))
  {
    var us := Challenges(run.rounds);
    var uis := EachInverse(us);
    Times(run.a, FoldAll(x.G, uis, us)) + Times(run.b, FoldAll(x.H, us, uis)) + Times(Times(run.a, run.b), x.Q)
  }

  lemma FinalClaimStep(round: Round, rest: Run, x: Instance)
    requires Sized(x, Pow2(|rest.rounds| + 1))
    ensures FinalClaim(rest.(rounds := [round] + rest.rounds), x) == FinalClaim(rest, Folded(x, round.u))
  {
    var rounds := [round] + rest.rounds;
    assert rounds[1..] == rest.rounds;
    RoundsTail(rounds);
  }

  predicate ClaimKept(x: Instance, run: Run)
    requires Sized(x, Pow2(|run.rounds|))
  {
    Red(Claim(x) + CrossSum(run.rounds)) == Red(FinalClaim(run, x))
  }

  // The whole run: the initial claim plus all cross terms is the final claim.
  lemma {:induction false} RunKeepsClaim(o: Oracle, log: Log, x: Instance, k: nat)
    requires Sized(x, Pow2(k)) && GoodRounds(Prove(o, log, x, k).rounds)
    ensures ClaimKept(x, Prove(o, log, x, k))
    decreases k
  {
    if k == 0 {
      DotEnds(x.a, x.G);
      DotEnds(x.b, x.H);
      DotEnds(x.a, x.b);
    } else {
      var round := FirstRound(o, log, x);
      var rest := Prove(o, Sent(log, round.l, round.r), Folded(x, round.u), k - 1);
      RoundsTail([round] + rest.rounds);
      assert ([round] + rest.rounds)[1..] == rest.rounds && ([round] + rest.rounds)[0] == round;
      RunKeepsClaim(o, Sent(log, round.l, round.r), Folded(x, round.u), k - 1);
      RoundExtendsClaim(round, rest, x);
    }
  }

  lemma RoundExtendsClaim(round: Round, rest: Run, x: Instance)
    requires Sized(x, Pow2(|rest.rounds| + 1)) && round.u != 0
    requires round.l == LeftPoint(x) && round.r == RightPoint(x)
    requires ClaimKept(Folded(x, round.u), rest)
    ensures ClaimKept(x, rest.(rounds := [round] + rest.rounds))
  {
    assert ([round] + rest.rounds)[1..] == rest.rounds;
    RoundKeepsClaim(x, round.u);
    FinalClaimStep(round, rest, x);
    ClaimStep(Claim(Folded(x, round.u)), Claim(x), CrossTerm(round), CrossSum(rest.rounds));
  }

  lemma ClaimStep(claim': int, claim: int, cross: int, rest: int)
    requires Red(claim') == Red(claim + cross)
    ensures Red(claim' + rest) == Red(claim + (cross + rest))
  {
    RedAdd(claim', claim + cross, rest, rest);
    assert claim + cross + rest == claim + (cross + rest);
  }

  lemma RoundsTail(rounds: seq<Round>)
    requires |rounds| > 0
    ensures GoodRounds(rounds) ==> GoodRounds(rounds[1..])
    ensures Challenges(rounds)[1..] == Challenges(rounds[1..])
    ensures EachInverse(Challenges(rounds))[1..] == EachInverse(Challenges(rounds[1..]))
  {
    forall i | 0 <= i < |rounds| - 1
      ensures rounds[1..][i] == rounds[i + 1]
    {
    }
  }
}
