// The linear argument <a, b> = c for a secret a and a public b: linear_proof.rs.
//
// The prover's random scalars are parameters, one pair a round and one at the end.
module LinearProof {
  import opened Wrappers
  import opened Bits
  import opened Scalars
  import opened Vectors
  import opened Folding
  import opened InnerProduct
  import opened InnerProductVerifier

  datatype LinearProof = LinearProof(ls: seq<Encoding>, rs: seq<Encoding>, S: Encoding, a: Scalar, r: Scalar)

  // The bases, the vectors and the blinding factor at the start of a round.
  datatype Statement = Statement(B: Element, F: Element, G: seq<Element>, a: seq<Scalar>, b: seq<Scalar>, r: Scalar)

  datatype Coins = Coins(s: Scalar, t: Scalar)

  datatype LinearRun = LinearRun(rounds: seq<Round>, end: Statement, log: Log)

  predicate Even(x: Statement, n: nat) {
    |x.G| == |x.a| == |x.b| == n
  }

  // ----- the plain protocol -----

  // L = <a_L, G_R> + s B + <a_L, b_R> F
  function LeftOf(x: Statement, s: Scalar): Element
    requires Even(x, |x.a|) && |x.a| % 2 == 0
  {
    Msm(Low(x.a) + [s] + [Red(Dot(Low(x.a), High(x.b)))], High(x.G) + [x.B] + [x.F])
  }

  // R = <a_R, G_L> + t B + <a_R, b_L> F
  function RightOf(x: Statement, t: Scalar): Element
    requires Even(x, |x.a|) && |x.a| % 2 == 0
  {
    Msm(High(x.a) + [t] + [Red(Dot(High(x.a), Low(x.b)))], Low(x.G) + [x.B] + [x.F])
  }

  // a' = a_L + u^-1 a_R, b' = b_L + u b_R, G' = G_L + u G_R and r' = r + u s + u^-1 t.
  function FoldedStatement(x: Statement, u: Scalar, c: Coins): (r: Statement)
    requires Even(x, |x.a|) && |x.a| % 2 == 0
    ensures Even(r, |x.a| / 2)
  {
    var ui := Inverse(u);
    Statement(x.B, x.F, Fold(x.G, 1, u), Fold(x.a, 1, ui), Fold(x.b, 1, u), Blinded(x.r, u, c))
  }

  function Blinded(r: Scalar, u: Scalar, c: Coins): Scalar {
    Add(Add(r, Mul(u, c.s)), Mul(Inverse(u), c.t))
  }

  function SentTerms(log: Log, l: Encoding, r: Encoding): Log {
    log + [Append("L", l), Append("R", r), Drawn("x_j")]
  }

  function LinearRound(o: Oracle, c: Coins, log: Log, x: Statement): Round
    requires Even(x, |x.a|) && |x.a| % 2 == 0
  {
    var l, r := LeftOf(x, c.s), RightOf(x, c.t);
    Round(l, r, o(SentTerms(log, Encoded(l), Encoded(r))))
  }

  function ProveLinear(o: Oracle, coins: seq<Coins>, log: Log, x: Statement): (run: LinearRun)
    requires Even(x, Pow2(|coins|))
    ensures |run.rounds| == |coins| && Even(run.end, 1)
    decreases |coins|
  {
    if |coins| == 0 then LinearRun([], x, log)
    else
      var round := LinearRound(o, coins[0], log, x);
      var rest := ProveLinear(o, coins[1..], SentTerms(log, Encoded(round.l), Encoded(round.r)), FoldedStatement(x, round.u, coins[0]));
      rest.(rounds := [round] + rest.rounds)
  }

  // Everything public goes into the transcript first.
  function Opening(log: Log, C: Encoding, B: Element, F: Element, G: seq<Element>, b: seq<Scalar>): Log {
    log + [DomainSeparator(|b|), Append("C", C)]
      + seq(|b|, i requires 0 <= i < |b| => AppendScalar("b_i", b[i]))
      + seq(|G|, i requires 0 <= i < |G| => Append("G_i", Encoded(G[i])))
      + [Append("F", Encoded(F)), Append("B", Encoded(B))]
  }

  // S = t* B + s* b_0 F + s* G_0
  function Masked(end: Statement, c: Coins): Element
    requires Even(end, 1)
  {
    Msm([c.t, Mul(c.s, end.b[0]), c.s], [end.B, end.F, end.G[0]])
  }

  function LastChallenge(o: Oracle, log: Log, S: Encoding): Scalar {
    o(log + [Append("S", S), Drawn("x_star")])
  }

  function ProofOfRun(o: Oracle, run: LinearRun, c: Coins): LinearProof
    requires Even(run.end, 1)
  {
    var S := Encoded(Masked(run.end, c));
    var x := LastChallenge(o, run.log, S);
    LinearProof(Lefts(run.rounds), Rights(run.rounds), S, Add(c.s, Mul(x, run.end.a[0])), Add(c.t, Mul(x, run.end.r)))
  }

  // ----- the verifier -----

  function ReadTerms(o: Oracle, log: Log, ls: seq<Encoding>, rs: seq<Encoding>): Option<(seq<Scalar>, Log)>
    requires |ls| == |rs|
    decreases |ls|
  {
    if |ls| == 0 then Some(([], log))
    else if ls[0] == Encoded(Identity) || rs[0] == Encoded(Identity) then None
    else
      var log' := SentTerms(log, ls[0], rs[0]);
      match ReadTerms(o, log', ls[1..], rs[1..])
      case None => None
      case Some((us, end)) => Some(([o(log')] + us, end))
  }

  function Ones(k: nat): (r: seq<Scalar>)
    ensures |r| == k
  {
    seq(k, i => Generator)
  }

  // The point the last message must equal.
  function ExpectedS(proof: LinearProof, us: seq<Scalar>, x: Scalar, C: Element, B: Element, F: Element, G: seq<Element>, b: seq<Scalar>): Element
    requires |proof.ls| == |proof.rs| == |us| && |G| == |b| == Pow2(|us|)
    requires AllDecode(proof.ls) && AllDecode(proof.rs)
  {
    var cross := Msm(us + Inverses(us), Decompressed(proof.ls) + Decompressed(proof.rs));
    var G0 := Msm(ClosedForm(Generator, us, Pow2(|us|)), G);
    var b0 := FoldAll(b, Ones(|us|), us);
    Msm([proof.r, Mul(proof.a, b0), Neg(x), Neg(x), proof.a], [B, F, C, cross, G0])
  }

  predicate LinearAccepts(o: Oracle, log: Log, proof: LinearProof, C: Encoding, B: Element, F: Element, G: seq<Element>, b: seq<Scalar>)
    requires |proof.ls| == |proof.rs|
  {
    var k := |proof.ls|;
    && |G| == |b| == Pow2(k) && k < 32
    && AllDecode(proof.ls) && AllDecode(proof.rs) && proof.S.Encoded? && C.Encoded?
    && match ReadTerms(o, Opening(log, C, B, F, G, b), proof.ls, proof.rs)
       case None => false
       case Some((us, end)) =>
         |us| == k && ExpectedS(proof, us, LastChallenge(o, end, proof.S), C.point, B, F, G, b) == proof.S.point
  }

  // ----- the fold algebra -----

  // <a, G> + r B + <a, b> F
  function LinearClaim(x: Statement): int
    requires Even(x, |x.a|)
  {
    Dot(x.a, x.G) + Times(x.r, x.B) + Times(Dot(x.a, x.b), x.F)
  }

  lemma DotTwoMore(v: seq<int>, p: seq<int>, s: int, B: int, c: int, F: int)
    requires |v| == |p|
    ensures Dot(v + [s] + [c], p + [B] + [F]) == Dot(v, p) + Times(s, B) + Times(c, F)
  {
    DotConcat(v, [s], p, [B]);
    DotConcat(v + [s], [c], p + [B], [F]);
    DotEnds([s], [B]);
    DotEnds([c], [F]);
  }

  lemma CrossOf(x: Statement, c: Coins)
    requires Even(x, |x.a|) && |x.a| % 2 == 0
    ensures LeftOf(x, c.s) == Red(Dot(Low(x.a), High(x.G)) + Times(c.s, x.B) + Times(Dot(Low(x.a), High(x.b)), x.F))
    ensures RightOf(x, c.t) == Red(Dot(High(x.a), Low(x.G)) + Times(c.t, x.B) + Times(Dot(High(x.a), Low(x.b)), x.F))
  {
    var cl, cr := Dot(Low(x.a), High(x.b)), Dot(High(x.a), Low(x.b));
    DotTwoMore(Low(x.a), High(x.G), c.s, x.B, Red(cl), x.F);
    DotTwoMore(High(x.a), Low(x.G), c.t, x.B, Red(cr), x.F);
    ReducedTerm(Dot(Low(x.a), High(x.G)) + Times(c.s, x.B), cl, x.F);
    ReducedTerm(Dot(High(x.a), Low(x.G)) + Times(c.t, x.B), cr, x.F);
  }

  // Folding a by u^-1 and v by u leaves the diagonal products and moves the cross ones.
  lemma LinearDotFolds(a: seq<int>, v: seq<int>, u: int, ui: int)
    requires |a| == |v| && |a| % 2 == 0 && Red(Times(u, ui)) == 1
    ensures Red(Dot(Fold(a, 1, ui), Fold(v, 1, u))) ==
      Red(Dot(a, v) + Times(u, Dot(Low(a), High(v))) + Times(ui, Dot(High(a), Low(v))))
  {
    var v' := Fold(v, 1, u);
    var ll, lh, hl, hh := Dot(Low(a), Low(v)), Dot(Low(a), High(v)), Dot(High(a), Low(v)), Dot(High(a), High(v));
    DotFold(a, 1, ui, v');
    FoldedCross(v, 1, u, Low(a));
    FoldedCross(v, 1, u, High(a));
    CombineHalves(1, ui, Dot(Low(a), v'), Times(1, ll) + Times(u, lh), Dot(High(a), v'), Times(1, hl) + Times(u, hh));
    SplitDot(a, v);
    LinearExpansion(u, ui, ll, lh, hl, hh);
  }

  lemma LinearExpansion(u: int, ui: int, ll: int, lh: int, hl: int, hh: int)
    requires Red(Times(u, ui)) == 1
    ensures Red(Times(1, Times(1, ll) + Times(u, lh)) + Times(ui, Times(1, hl) + Times(u, hh))) ==
      Red(ll + hh + Times(u, lh) + Times(ui, hl))
  {
    TimesUnits(ll);
    TimesUnits(hl);
    TimesUnits(ll + Times(u, lh));
    TimesDistributes(ui, hl, Times(u, hh));
    TimesCommutes(u, ui);
    UnitTimes(ui, u, hh);
    var rest := ll + Times(u, lh) + Times(ui, hl);
    RedAdd(Times(ui, Times(u, hh)), hh, rest, rest);
  }

  // u L + u^-1 R
  function LinearCross(round: Round): int {
    Times(round.u, round.l) + Times(Inverse(round.u), round.r)
  }

  function LinearCrossSum(rounds: seq<Round>): int {
    if |rounds| == 0 then 0 else LinearCross(rounds[0]) + LinearCrossSum(rounds[1..])
  }

  // One round changes the claim by its cross terms.
  lemma LinearRoundKeepsClaim(x: Statement, u: Scalar, c: Coins)
    requires Even(x, |x.a|) && |x.a| % 2 == 0 && u != 0
    ensures Red(LinearClaim(FoldedStatement(x, u, c))) == Red(LinearClaim(x) + LinearCross(Round(LeftOf(x, c.s), RightOf(x, c.t), u)))
  {
    InverseLaw(u);
    var ui := Inverse(u);
    LinearDotFolds(x.a, x.G, u, ui);
    LinearDotFolds(x.a, x.b, u, ui);
    CrossOf(x, c);
    BlindedIs(x.r, u, c);
    var x' := FoldedStatement(x, u, c);
    LinearClaimAlgebra(x.B, x.F, u, ui, x.r, c.s, c.t, x'.r,
      Dot(x.a, x.G), Dot(Low(x.a), High(x.G)), Dot(High(x.a), Low(x.G)), Dot(x'.a, x'.G),
      Dot(x.a, x.b), Dot(Low(x.a), High(x.b)), Dot(High(x.a), Low(x.b)), Dot(x'.a, x'.b));
  }

  lemma BlindedIs(r: Scalar, u: Scalar, c: Coins)
    ensures Blinded(r, u, c) == Red(r + Times(u, c.s) + Times(Inverse(u), c.t))
  {
    RedAdd(r, r, Mul(u, c.s), Times(u, c.s));
    RedAdd(Add(r, Mul(u, c.s)), r + Times(u, c.s), Mul(Inverse(u), c.t), Times(Inverse(u), c.t));
  }

  lemma LinearClaimAlgebra(B: int, F: int, u: int, ui: int, r: int, s: int, t: int, r': int,
                           ag: int, agl: int, agr: int, ag': int, ab: int, abl: int, abr: int, ab': int)
    requires Red(ag') == Red(ag + Times(u, agl) + Times(ui, agr))
    requires Red(ab') == Red(ab + Times(u, abl) + Times(ui, abr))
    requires Red(r') == Red(r + Times(u, s) + Times(ui, t))
    ensures Red(ag' + Times(r', B) + Times(ab', F)) ==
      Red(ag + Times(r, B) + Times(ab, F) +
        (Times(u, Red(agl + Times(s, B) + Times(abl, F))) + Times(ui, Red(agr + Times(t, B) + Times(abr, F)))))
  {
    var x, y, z := ag + Times(u, agl) + Times(ui, agr), r + Times(u, s) + Times(ui, t), ab + Times(u, abl) + Times(ui, abr);
    RedMul(r', y, B, B);
    RedMul(ab', z, F, F);
    RedAdd(ag', x, Times(r', B), Times(y, B));
    RedAdd(ag' + Times(r', B), x + Times(y, B), Times(ab', F), Times(z, F));
    var l, rt := agl + Times(s, B) + Times(abl, F), agr + Times(t, B) + Times(abr, F);
    RedMul(u, u, Red(l), l);
    RedMul(ui, ui, Red(rt), rt);
    RedAdd(Times(u, Red(l)), Times(u, l), Times(ui, Red(rt)), Times(ui, rt));
    var base := ag + Times(r, B) + Times(ab, F);
    RedAdd(base, base, Times(u, Red(l)) + Times(ui, Red(rt)), Times(u, l) + Times(ui, rt));
    ClaimIdentity(B, u, ui, r, s, t, agl, agr);
    ClaimIdentity(F, u, ui, ab, abl, abr, agl + Times(s, B), agr + Times(t, B));
  }

  predicate LinearKept(x: Statement, run: LinearRun)
    requires Even(x, |x.a|) && Even(run.end, 1)
  {
    Red(LinearClaim(x) + LinearCrossSum(run.rounds)) == Red(LinearClaim(run.end))
  }

  // The initial claim plus all cross terms is the claim about the last statement.
  lemma {:induction false} LinearRunKeepsClaim(o: Oracle, coins: seq<Coins>, log: Log, x: Statement)
    requires Even(x, Pow2(|coins|)) && GoodRounds(ProveLinear(o, coins, log, x).rounds)
    ensures LinearKept(x, ProveLinear(o, coins, log, x))
    decreases |coins|
  {
    if |coins| > 0 {
      var round := LinearRound(o, coins[0], log, x);
      var log', x' := SentTerms(log, Encoded(round.l), Encoded(round.r)), FoldedStatement(x, round.u, coins[0]);
      var rest := ProveLinear(o, coins[1..], log', x');
      assert ([round] + rest.rounds)[1..] == rest.rounds && ([round] + rest.rounds)[0] == round;
      RoundsTail([round] + rest.rounds);
      LinearRunKeepsClaim(o, coins[1..], log', x');
      LinearRoundKeepsClaim(x, round.u, coins[0]);
      ClaimStep(LinearClaim(x'), LinearClaim(x), LinearCross(round), LinearCrossSum(rest.rounds));
    }
  }

  // What the rounds leave: the base and the public vector folded by the challenges.
  lemma {:induction false} RunFolds(o: Oracle, coins: seq<Coins>, log: Log, x: Statement)
    requires Even(x, Pow2(|coins|))
    ensures
      var run := ProveLinear(o, coins, log, x);
      var us := Challenges(run.rounds);
      && run.end.G[0] == FoldAll(x.G, Ones(|coins|), us) && run.end.b[0] == FoldAll(x.b, Ones(|coins|), us)
      && run.end.B == x.B && run.end.F == x.F
    decreases |coins|
  {
    if |coins| > 0 {
      var round := LinearRound(o, coins[0], log, x);
      var log', x' := SentTerms(log, Encoded(round.l), Encoded(round.r)), FoldedStatement(x, round.u, coins[0]);
      var rest := ProveLinear(o, coins[1..], log', x');
      RunFolds(o, coins[1..], log', x');
      RoundsTail([round] + rest.rounds);
      assert ([round] + rest.rounds)[1..] == rest.rounds;
      assert Ones(|coins|)[1..] == Ones(|coins| - 1);
    }
  }

  // r + sum of u_j s_j + u_j^-1 t_j
  function BlindingSum(rounds: seq<Round>, coins: seq<Coins>): int
    requires |rounds| == |coins|
  {
    if |rounds| == 0 then 0
    else Times(rounds[0].u, coins[0].s) + Times(Inverse(rounds[0].u), coins[0].t) + BlindingSum(rounds[1..], coins[1..])
  }

  lemma {:induction false} RunningBlinding(o: Oracle, coins: seq<Coins>, log: Log, x: Statement)
    requires Even(x, Pow2(|coins|))
    ensures var run := ProveLinear(o, coins, log, x); run.end.r == Red(x.r + BlindingSum(run.rounds, coins))
    decreases |coins|
  {
    if |coins| > 0 {
      var round := LinearRound(o, coins[0], log, x);
      var log', x' := SentTerms(log, Encoded(round.l), Encoded(round.r)), FoldedStatement(x, round.u, coins[0]);
      var rest := ProveLinear(o, coins[1..], log', x');
      RunningBlinding(o, coins[1..], log', x');
      assert ([round] + rest.rounds)[1..] == rest.rounds;
      BlindedIs(x.r, round.u, coins[0]);
      var more := BlindingSum(rest.rounds, coins[1..]);
      RedAdd(x'.r, x.r + Times(round.u, coins[0].s) + Times(Inverse(round.u), coins[0].t), more, more);
    }
  }
}
