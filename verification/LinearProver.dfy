// The linear argument's prover, in place, and its completeness: linear_proof.rs.
module LinearProver {
  import opened Wrappers
  import opened Bits
  import opened Scalars
  import opened Vectors
  import opened Folding
  import opened InnerProduct
  import opened InnerProductVerifier
  import opened LinearProof
  import opened LinearVerifier

  // ----- the verifier follows an honest run -----

  lemma {:induction false} TermsRead(o: Oracle, coins: seq<Coins>, log: Log, x: Statement)
    requires Even(x, Pow2(|coins|)) && GoodRounds(ProveLinear(o, coins, log, x).rounds)
    ensures
      var run := ProveLinear(o, coins, log, x);
      ReadTerms(o, log, Lefts(run.rounds), Rights(run.rounds)) == Some((Challenges(run.rounds), run.log))
    decreases |coins|
  {
    if |coins| > 0 {
      var round := LinearRound(o, coins[0], log, x);
      var log', x' := SentTerms(log, Encoded(round.l), Encoded(round.r)), FoldedStatement(x, round.u, coins[0]);
      var rest := ProveLinear(o, coins[1..], log', x');
      assert ([round] + rest.rounds)[0] == round && ([round] + rest.rounds)[1..] == rest.rounds;
      RoundsTail([round] + rest.rounds);
      TermsRead(o, coins[1..], log', x');
      TermRead(o, log, round, rest.rounds, rest.log);
    }
  }

  lemma TermRead(o: Oracle, log: Log, round: Round, rest: seq<Round>, end: Log)
    requires
      var log' := SentTerms(log, Encoded(round.l), Encoded(round.r));
      && round.l != Identity && round.r != Identity && round.u == o(log')
      && ReadTerms(o, log', Lefts(rest), Rights(rest)) == Some((Challenges(rest), end))
    ensures ReadTerms(o, log, Lefts([round] + rest), Rights([round] + rest)) == Some((Challenges([round] + rest), end))
  {
    var rounds := [round] + rest;
    assert Lefts(rounds)[1..] == Lefts(rest) && Rights(rounds)[1..] == Rights(rest);
    assert Challenges(rounds) == [round.u] + Challenges(rest);
  }

  // (s + x a) P = s P + x (a P)
  lemma AffineTimes(s: Scalar, x: Scalar, a: Scalar, P: int)
    ensures Red(Times(Add(s, Mul(x, a)), P)) == Red(Times(s, P) + Times(x, Times(a, P)))
  {
    RedAdd(s, s, Mul(x, a), Times(x, a));
    RedMul(Add(s, Mul(x, a)), s + Times(x, a), P, P);
    TimesDistributes(P, s, Times(x, a));
    TimesAssociates(x, a, P);
  }

  // The masked answers cancel the challenge's part of the claim.
  lemma FinalAlgebra(t: Scalar, s: Scalar, x: Scalar, r: Scalar, a: Scalar, b: Scalar, B: int, F: int, G: int, C: int, cross: int)
    requires Red(C + cross) == Red(Times(a, G) + Times(r, B) + Times(Times(a, b), F))
    ensures
      var a', r' := Add(s, Mul(x, a)), Add(t, Mul(x, r));
      Red(Times(r', B) + Times(Mul(a', b), F) + Times(Neg(x), C) + Times(Neg(x), cross) + Times(a', G)) ==
      Red(Times(t, B) + Times(Mul(s, b), F) + Times(s, G))
  {
    var a', r' := Add(s, Mul(x, a)), Add(t, Mul(x, r));
    var bF := Times(b, F);
    AffineTimes(t, x, r, B);
    MulAssociates(a', b, F);
    RedMul(Mul(a', b), Times(a', b), F, F);
    TimesAssociates(a', b, F);
    AffineTimes(s, x, a, bF);
    AffineTimes(s, x, a, G);
    NegatedTimes(x, C);
    NegatedTimes(x, cross);
    RedMul(Mul(s, b), Times(s, b), F, F);
    TimesAssociates(s, b, F);
    TimesAssociates(a, b, F);
    SumOfFive(Times(r', B), Times(t, B) + Times(x, Times(r, B)), Times(Mul(a', b), F), Times(s, bF) + Times(x, Times(a, bF)),
              Times(Neg(x), C), 0 - Times(x, C), Times(Neg(x), cross), 0 - Times(x, cross),
              Times(a', G), Times(s, G) + Times(x, Times(a, G)));
    var claim := Times(a, G) + Times(r, B) + Times(a, bF);
    Cancelled(x, Times(r, B), Times(a, bF), Times(a, G), C, cross);
    var kept := Times(t, B) + Times(s, bF) + Times(s, G);
    RedSub(claim, C + cross, C + cross, C + cross);
    RedMul(x, x, claim - (C + cross), 0);
    TimesUnits(x);
    RedAdd(kept, kept, Times(x, claim - (C + cross)), 0);
    RedAdd(Times(Mul(s, b), F), Times(s, bF), Times(t, B) + Times(s, G), Times(t, B) + Times(s, G));
  }

  lemma Cancelled(x: int, rB: int, abF: int, aG: int, C: int, cross: int)
    ensures Times(x, rB) + Times(x, abF) + Times(x, aG) - Times(x, C) - Times(x, cross) == Times(x, aG + rB + abF - (C + cross))
  {
    TimesDistributes(x, aG, rB);
    TimesDistributes(x, aG + rB, abF);
    TimesDistributes(x, C, cross);
    TimesDistributes(x, aG + rB + abF, C + cross);
  }

  // C = <a, G> + r B + <a, b> F
  function LinearCommitment(x: Statement): Element
    requires Even(x, |x.a|)
  {
    Msm(x.a + [x.r] + [Red(Dot(x.a, x.b))], x.G + [x.B] + [x.F])
  }

  lemma LinearCommitmentIs(x: Statement)
    requires Even(x, |x.a|)
    ensures LinearCommitment(x) == Red(LinearClaim(x))
  {
    DotTwoMore(x.a, x.G, x.r, x.B, Red(Dot(x.a, x.b)), x.F);
    ReducedTerm(Dot(x.a, x.G) + Times(x.r, x.B), Dot(x.a, x.b), x.F);
  }

  lemma ExpectedIsMasked(o: Oracle, coins: seq<Coins>, last: Coins, log: Log, x: Statement)
    requires Even(x, Pow2(|coins|)) && GoodRounds(ProveLinear(o, coins, log, x).rounds)
    ensures
      var run := ProveLinear(o, coins, log, x);
      var proof := ProofOfRun(o, run, last);
      AllDecode(proof.ls) && AllDecode(proof.rs) &&
      ExpectedS(proof, Challenges(run.rounds), LastChallenge(o, run.log, proof.S), LinearCommitment(x), x.B, x.F, x.G, x.b) == Masked(run.end, last)
  {
    RunFolds(o, coins, log, x);
    LinearRunKeepsClaim(o, coins, log, x);
    ExpectedFromRun(o, ProveLinear(o, coins, log, x), last, x);
  }

  lemma ExpectedFromRun(o: Oracle, run: LinearRun, last: Coins, x: Statement)
    requires Even(x, Pow2(|run.rounds|)) && Even(run.end, 1) && GoodRounds(run.rounds) && LinearKept(x, run)
    requires run.end.B == x.B && run.end.F == x.F
    requires
      var us := Challenges(run.rounds);
      run.end.G[0] == FoldAll(x.G, Ones(|us|), us) && run.end.b[0] == FoldAll(x.b, Ones(|us|), us)
    ensures
      var proof := ProofOfRun(o, run, last);
      AllDecode(proof.ls) && AllDecode(proof.rs) &&
      ExpectedS(proof, Challenges(run.rounds), LastChallenge(o, run.log, proof.S), LinearCommitment(x), x.B, x.F, x.G, x.b) == Masked(run.end, last)
  {
    var proof := ProofOfRun(o, run, last);
    var us := Challenges(run.rounds);
    var z := LastChallenge(o, run.log, proof.S);
    ChallengesNonzero(run.rounds);
    InversesPair(us);
    SubsetFoldsBase(us, x.G);
    assert Decompressed(proof.ls) == LeftsOf(run.rounds) && Decompressed(proof.rs) == RightsOf(run.rounds);
    DotConcat(us, Inverses(us), LeftsOf(run.rounds), RightsOf(run.rounds));
    CrossTermsSum(run.rounds);
    var cross := Red(LinearCrossSum(run.rounds));
    CommitmentKept(x, run);
    AnswerHolds(last, z, run.end, LinearCommitment(x), cross);
  }

  lemma CommitmentKept(x: Statement, run: LinearRun)
    requires Even(x, |x.a|) && Even(run.end, 1) && LinearKept(x, run)
    ensures Red(LinearCommitment(x) + Red(LinearCrossSum(run.rounds))) == Red(LinearClaim(run.end))
  {
    LinearCommitmentIs(x);
    RedAdd(LinearCommitment(x), LinearClaim(x), Red(LinearCrossSum(run.rounds)), LinearCrossSum(run.rounds));
  }

  // The last message answers any challenge on a claim of length one.
  lemma AnswerHolds(last: Coins, z: Scalar, end: Statement, C: Element, cross: Element)
    requires Even(end, 1) && Red(C + cross) == Red(LinearClaim(end))
    ensures
      var a, r := Add(last.s, Mul(z, end.a[0])), Add(last.t, Mul(z, end.r));
      Msm([r, Mul(a, end.b[0]), Neg(z), Neg(z), a], [end.B, end.F, C, cross, end.G[0]]) == Masked(end, last)
  {
    var a, r := Add(last.s, Mul(z, end.a[0])), Add(last.t, Mul(z, end.r));
    EndClaim(end);
    FinalAlgebra(last.t, last.s, z, end.r, end.a[0], end.b[0], end.B, end.F, end.G[0], C, cross);
    DotFive([r, Mul(a, end.b[0]), Neg(z), Neg(z), a], [end.B, end.F, C, cross, end.G[0]]);
    DotThree([last.t, Mul(last.s, end.b[0]), last.s], [end.B, end.F, end.G[0]]);
  }

  lemma EndClaim(end: Statement)
    requires Even(end, 1)
    ensures LinearClaim(end) == Times(end.a[0], end.G[0]) + Times(end.r, end.B) + Times(Times(end.a[0], end.b[0]), end.F)
  {
    DotEnds(end.a, end.G);
    DotEnds(end.a, end.b);
  }

  // Completeness, for every vector length 2^k below 2^32.
  lemma LinearComplete(o: Oracle, coins: seq<Coins>, last: Coins, log: Log, x: Statement)
    requires |coins| < 32 && Even(x, Pow2(|coins|))
    requires
      var C := Encoded(LinearCommitment(x));
      GoodRounds(ProveLinear(o, coins, Opening(log, C, x.B, x.F, x.G, x.b), x).rounds)
    ensures
      var C := Encoded(LinearCommitment(x));
      var run := ProveLinear(o, coins, Opening(log, C, x.B, x.F, x.G, x.b), x);
      LinearAccepts(o, log, ProofOfRun(o, run, last), C, x.B, x.F, x.G, x.b)
  {
    var C := Encoded(LinearCommitment(x));
    var opening := Opening(log, C, x.B, x.F, x.G, x.b);
    var run := ProveLinear(o, coins, opening, x);
    TermsRead(o, coins, opening, x);
    ExpectedIsMasked(o, coins, last, opening, x);
    assert ProofOfRun(o, run, last).ls == Lefts(run.rounds) && ProofOfRun(o, run, last).rs == Rights(run.rounds);
  }

  // ----- the prover as a program -----

  // The run of one's own rounds followed by the rest.
  function Finish(done: seq<Round>, run: LinearRun): LinearRun {
    run.(rounds := done + run.rounds)
  }

  // The plain protocol's view of the arrays.
  ghost function Now(B: Element, F: Element, G: array<Element>, a: array<Scalar>, b: array<Scalar>, n: nat, r: Scalar): (x: Statement)
    requires n <= G.Length && n <= a.Length && n <= b.Length
    reads G, a, b
    ensures Even(x, n)
  {
    Statement(B, F, G[..n], a[..n], b[..n], r)
  }

  // The rounds yet to come, after those done.
  datatype Standing = Standing(coins: seq<Coins>, log: Log, x: Statement, done: seq<Round>) {
    predicate Valid() {
      Even(x, Pow2(|coins|))
    }

    function FoldedOutcome(o: Oracle, n: nat): LinearRun
      requires Valid()
    {
      if n == 0 then Finish(done, ProveLinear(o, coins, log, x)) else FoldedOutcome(o, n - 1)
    }

    // How the run ends. Folded, as `OutcomeIs` says.
    function Outcome(o: Oracle): LinearRun
      requires Valid()
    {
      FoldedOutcome(o, q)
    }

    lemma UnfoldOutcome(o: Oracle, n: nat)
      requires Valid()
      ensures FoldedOutcome(o, n) == Finish(done, ProveLinear(o, coins, log, x))
    {
    }

    lemma OutcomeIs(o: Oracle)
      requires Valid()
      ensures Outcome(o) == Finish(done, ProveLinear(o, coins, log, x))
    {
      UnfoldOutcome(o, q);
    }

    function Advanced(o: Oracle): (s: Standing)
      requires Valid() && |coins| > 0
      ensures s.Valid()
    {
      var round := LinearRound(o, coins[0], log, x);
      Standing(coins[1..], SentTerms(log, Encoded(round.l), Encoded(round.r)), FoldedStatement(x, round.u, coins[0]), done + [round])
    }

    function FoldedNext(o: Oracle, n: nat): (s: Standing)
      requires Valid() && |coins| > 0
      ensures s.Valid()
    {
      if n == 0 then Advanced(o) else FoldedNext(o, n - 1)
    }

    // One round later. Folded, as `NextIs` says.
    function Next(o: Oracle): (s: Standing)
      requires Valid() && |coins| > 0
      ensures s.Valid()
    {
      FoldedNext(o, q)
    }

    lemma UnfoldNext(o: Oracle, n: nat)
      requires Valid() && |coins| > 0
      ensures FoldedNext(o, n) == Advanced(o)
    {
    }

    lemma NextIs(o: Oracle)
      requires Valid() && |coins| > 0
      ensures Next(o) == Advanced(o)
    {
      UnfoldNext(o, q);
    }

    lemma OutcomeAfterRound(o: Oracle)
      requires Valid() && |coins| > 0
      ensures Outcome(o) == Next(o).Outcome(o)
    {
      NextIs(o);
      OutcomeIs(o);
      Advanced(o).OutcomeIs(o);
      var round := LinearRound(o, coins[0], log, x);
      var rest := ProveLinear(o, Advanced(o).coins, Advanced(o).log, Advanced(o).x);
      assert done + ([round] + rest.rounds) == done + [round] + rest.rounds;
    }

    lemma OutcomeFromStart(o: Oracle)
      requires Valid() && done == []
      ensures Outcome(o) == ProveLinear(o, coins, log, x)
    {
      OutcomeIs(o);
      var rounds := ProveLinear(o, coins, log, x).rounds;
      assert [] + rounds == rounds;
    }

    lemma OutcomeAtEnd(o: Oracle)
      requires Valid() && |coins| == 0
      ensures Outcome(o) == LinearRun(done, x, log)
    {
      OutcomeIs(o);
      assert done + [] == done;
    }
  }

  // The cross terms of one round.
  method RoundTerms(c: Coins, G: seq<Element>, a: seq<Scalar>, b: seq<Scalar>, ghost r: Scalar, F: Element, B: Element) returns (l: Element, rt: Element)
    requires |G| == |a| == |b| && |a| % 2 == 0
    ensures l == LeftOf(Statement(B, F, G, a, b, r), c.s) && rt == RightOf(Statement(B, F, G, a, b, r), c.t)
  {
    var m := |a| / 2;
    var aL, aR, bL, bR := a[..m], a[m..], b[..m], b[m..];
    var cl := ScalarProduct(aL, bR);
    var cr := ScalarProduct(aR, bL);
    l := Msm(aL + [c.s] + [cl], G[m..] + [B] + [F]);
    rt := Msm(aR + [c.t] + [cr], G[..m] + [B] + [F]);
  }

  // One round in place: the cross terms, the challenge, and the three folds.
  method FoldRound(o: Oracle, log: Log, c: Coins, G: array<Element>, a: array<Scalar>, b: array<Scalar>, n: nat, r: Scalar, F: Element, B: Element)
    returns (l: Element, rt: Element, blinding: Scalar)
    requires G != a && G != b && a != b
    requires n % 2 == 0 && n <= G.Length && n <= a.Length && n <= b.Length
    modifies G, a, b
    ensures
      var x := old(Now(B, F, G, a, b, n, r));
      var round := LinearRound(o, c, log, x);
      && l == round.l && rt == round.r
      && Now(B, F, G, a, b, n / 2, blinding) == FoldedStatement(x, round.u, c)
  {
    var m := n / 2;
    l, rt := RoundTerms(c, G[..n], a[..n], b[..n], r, F, B);
    var u := o(SentTerms(log, Encoded(l), Encoded(rt)));
    var ui := Inverse(u);
    FoldOnto(a, m, ui);
    FoldOnto(b, m, u);
    FoldOnto(G, m, u);
    blinding := Add(Add(r, Mul(u, c.s)), Mul(ui, c.t));
  }

  // The round, as a step of the standing.
  method NextRound(o: Oracle, log: Log, c: Coins, G: array<Element>, a: array<Scalar>, b: array<Scalar>, n: nat, r: Scalar, F: Element, B: Element, ghost s: Standing)
    returns (l: Element, rt: Element, blinding: Scalar)
    requires G != a && G != b && a != b && n <= G.Length && n <= a.Length && n <= b.Length
    requires s.Valid() && |s.coins| > 0 && s.log == log && s.coins[0] == c && s.x == Now(B, F, G, a, b, n, r)
    modifies G, a, b
    ensures
      var s' := s.Next(o);
      && s'.Valid() && s'.coins == s.coins[1..] && s'.log == SentTerms(log, Encoded(l), Encoded(rt))
      && s'.x == Now(B, F, G, a, b, n / 2, blinding)
      && Lefts(s'.done) == Lefts(s.done) + [Encoded(l)] && Rights(s'.done) == Rights(s.done) + [Encoded(rt)]
  {
    TermsPush(s.done, LinearRound(o, c, log, s.x));
    s.NextIs(o);
    l, rt, blinding := FoldRound(o, log, c, G, a, b, n, r, F, B);
  }

  predicate IsPowerOfTwo(n: nat) {
    n > 0 && Pow2(NumBits(n) - 1) == n
  }

  // The random scalars of the rounds, in the order they are drawn.
  function Drawing(coins: nat -> Coins, k: nat): (r: seq<Coins>)
    ensures |r| == k
  {
    seq(k, i requires 0 <= i < k => coins(i))
  }

  lemma TermsPush(done: seq<Round>, round: Round)
    ensures Lefts(done + [round]) == Lefts(done) + [Encoded(round.l)]
    ensures Rights(done + [round]) == Rights(done) + [Encoded(round.r)]
  {
  }

  // All rounds, as steps of the standing.
  method FoldFrom(o: Oracle, start: Log, coins: seq<Coins>, G: array<Element>, a: array<Scalar>, b: array<Scalar>, r0: Scalar, F: Element, B: Element, ghost s0: Standing)
    returns (ls: seq<Encoding>, rs: seq<Encoding>, r: Scalar, log: Log, ghost s: Standing)
    requires G != a && G != b && a != b && G.Length == a.Length == b.Length == Pow2(|coins|)
    requires s0 == Standing(coins, start, Now(B, F, G, a, b, Pow2(|coins|), r0), [])
    modifies G, a, b
    ensures s.Valid() && |s.coins| == 0 && s.Outcome(o) == s0.Outcome(o)
    ensures s.log == log && s.x == Now(B, F, G, a, b, 1, r) && ls == Lefts(s.done) && rs == Rights(s.done)
  {
    var k := |coins|;
    var n := Pow2(k);
    ls, rs, r, log, s := [], [], r0, start, s0;
    for j := 0 to k
      invariant n == Pow2(k - j) <= Pow2(k)
      invariant s.Valid() && s.coins == coins[j..] && s.log == log && s.x == Now(B, F, G, a, b, n, r)
      invariant s.Outcome(o) == s0.Outcome(o)
      invariant ls == Lefts(s.done) && rs == Rights(s.done)
    {
      s.OutcomeAfterRound(o);
      var l, rt;
      l, rt, r := NextRound(o, log, coins[j], G, a, b, n, r, F, B, s);
      log := SentTerms(log, Encoded(l), Encoded(rt));
      ls, rs := ls + [Encoded(l)], rs + [Encoded(rt)];
      n := n / 2;
      s := s.Next(o);
    }
  }

  method FoldRounds(o: Oracle, start: Log, coins: seq<Coins>, G: array<Element>, a: array<Scalar>, b: array<Scalar>, r0: Scalar, F: Element, B: Element)
    returns (ls: seq<Encoding>, rs: seq<Encoding>, r: Scalar, log: Log)
    requires G != a && G != b && a != b && G.Length == a.Length == b.Length == Pow2(|coins|)
    modifies G, a, b
    ensures
      var run := ProveLinear(o, coins, start, old(Now(B, F, G, a, b, Pow2(|coins|), r0)));
      && ls == Lefts(run.rounds) && rs == Rights(run.rounds) && log == run.log
      && Now(B, F, G, a, b, 1, r) == run.end
  {
    ghost var s0 := Standing(coins, start, Now(B, F, G, a, b, Pow2(|coins|), r0), []);
    ghost var s;
    ls, rs, r, log, s := FoldFrom(o, start, coins, G, a, b, r0, F, B, s0);
    s.OutcomeAtEnd(o);
    s0.OutcomeFromStart(o);
  }

  // An empty vector is refused like any length that is not a power of two.
  method CreateLinear(o: Oracle, start: Log, coins: nat -> Coins, C: Encoding, r: Scalar, a: array<Scalar>, b: array<Scalar>, G: array<Element>, F: Element, B: Element)
    returns (res: Result<LinearProof, ProofError>)
    requires G != a && G != b && a != b
    modifies G, a, b
    ensures G.Length != b.Length ==> res == Err(InvalidGeneratorsLength)
    ensures G.Length == b.Length && (a.Length != b.Length || !IsPowerOfTwo(b.Length)) ==> res == Err(InvalidInputLength)
    ensures G.Length == a.Length == b.Length && IsPowerOfTwo(b.Length) ==>
      var k := NumBits(b.Length) - 1;
      var x := old(Now(B, F, G, a, b, b.Length, r));
      res == Ok(ProofOfRun(o, ProveLinear(o, Drawing(coins, k), Opening(start, C, B, F, x.G, x.b), x), coins(k)))
  {
    var n := b.Length;
    if G.Length != n {
      return Err(InvalidGeneratorsLength);
    }
    if a.Length != n || !IsPowerOfTwo(n) {
      return Err(InvalidInputLength);
    }
    var k := NumBits(n) - 1;
    assert G[..n] == G[..] && a[..n] == a[..] && b[..n] == b[..];
    ghost var x0 := Now(B, F, G, a, b, n, r);
    ghost var run := ProveLinear(o, Drawing(coins, k), Opening(start, C, B, F, x0.G, x0.b), x0);
    var ls, rs, blinding, log := FoldRounds(o, Opening(start, C, B, F, G[..], b[..]), Drawing(coins, k), G, a, b, r, F, B);
    var last := coins(k);
    assert run.end.a[0] == a[0] && run.end.b[0] == b[0] && run.end.G[0] == G[0];
    var S := Encoded(Msm([last.t, Mul(last.s, b[0]), last.s], [B, F, G[0]]));
    var x := LastChallenge(o, log, S);
    res := Ok(LinearProof(ls, rs, S, Add(last.s, Mul(x, a[0])), Add(last.t, Mul(x, blinding))));
  }
}
