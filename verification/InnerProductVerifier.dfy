// The inner-product verifier and its completeness: inner_product_proof.rs.
module InnerProductVerifier {
  import opened Wrappers
  import opened Bits
  import opened Scalars
  import opened Vectors
  import opened Folding
  import opened InnerProduct

  datatype ProofError = VerificationError | InvalidGeneratorsLength | InvalidInputLength

  // ----- the verifier as a program -----

  // One challenge a round, rejecting an identity L or R.
  method DrawChallenges(o: Oracle, start: Log, proof: Proof) returns (r: Option<seq<Scalar>>, log: Log)
    requires |proof.ls| == |proof.rs|
    ensures r.None? <==> ReadRounds(o, start, proof.ls, proof.rs).None?
    ensures r.Some? ==> |r.value| == |proof.ls| && ReadRounds(o, start, proof.ls, proof.rs) == Some((r.value, log))
  {
    log := start;
    ghost var all := ReadRounds(o, log, proof.ls, proof.rs);
    var us: seq<Scalar> := [];
    ReadFrom(o, log, proof);
    for j := 0 to |proof.ls|
      invariant |us| == j
      invariant all == ReadFurther(o, log, us, proof)
    {
      ReadNext(o, log, us, proof);
      if proof.ls[j] == Encoded(Identity) || proof.rs[j] == Encoded(Identity) {
        return None, log;
      }
      log := log + [Append("L", proof.ls[j]), Append("R", proof.rs[j]), Drawn("u")];
      us := us + [o(log)];
    }
    ReadAll(o, log, us, proof);
    r := Some(us);
  }

  // s, grown by index from its first entry.
  method FillScalars(first: Scalar, squares: seq<Scalar>, n: nat) returns (s: seq<Scalar>)
    requires n == Pow2(|squares|)
    ensures s == ClosedForm(first, squares, n)
  {
    s := [first];
    for i := 1 to n
      invariant s == ClosedForm(first, squares, i)
    {
      TopBit(i, |squares|);
      var lg := NumBits(i) - 1;
      s := s + [Mul(s[i - Pow2(lg)], squares[(|squares| - 1) - lg])];
    }
  }

  // The domain-separated transcript, the squared challenges and inverses, and s.
  method VerificationScalars(o: Oracle, start: Log, proof: Proof, n: nat)
    returns (r: Result<(seq<Scalar>, seq<Scalar>, seq<Scalar>), ProofError>, log: Log)
    requires |proof.ls| == |proof.rs|
    ensures
      var k := |proof.ls|;
      r.Ok? <==> k < 32 && n == Pow2(k) && ReadRounds(o, start + [DomainSeparator(n)], proof.ls, proof.rs).Some?
    ensures r.Ok? ==>
      var (us, end) := ReadRounds(o, start + [DomainSeparator(n)], proof.ls, proof.rs).value;
      && log == end && |us| == |proof.ls|
      && r.value == (Squares(us), Squares(Inverses(us)), ClosedForm(Red(ProductOf(Inverses(us))), Squares(us), n))
  {
    var k := |proof.ls|;
    log := start;
    if k >= 32 || n != Pow2(k) {
      return Err(VerificationError), log;
    }
    log := log + [DomainSeparator(n)];
    var drawn;
    drawn, log := DrawChallenges(o, log, proof);
    if drawn.None? {
      return Err(VerificationError), log;
    }
    var us := drawn.value;
    var uis := Inverses(us);
    var squares := Squares(us);
    var s := FillScalars(Red(ProductOf(uis)), squares, n);
    r := Ok((squares, Squares(uis), s));
  }

  // What reading the whole proof gives, once us have been drawn and log reached.
  function ReadFurther(o: Oracle, log: Log, us: seq<Scalar>, proof: Proof): Option<(seq<Scalar>, Log)>
    requires |us| <= |proof.ls| == |proof.rs|
  {
    match ReadRounds(o, log, proof.ls[|us|..], proof.rs[|us|..])
    case None => None
    case Some((rest, end)) => Some((us + rest, end))
  }

  lemma ReadFrom(o: Oracle, log: Log, proof: Proof)
    requires |proof.ls| == |proof.rs|
    ensures ReadFurther(o, log, [], proof) == ReadRounds(o, log, proof.ls, proof.rs)
  {
    assert proof.ls[0..] == proof.ls && proof.rs[0..] == proof.rs;
    if ReadRounds(o, log, proof.ls, proof.rs).Some? {
      var us := ReadRounds(o, log, proof.ls, proof.rs).value.0;
      assert [] + us == us;
    }
  }

  lemma ReadNext(o: Oracle, log: Log, us: seq<Scalar>, proof: Proof)
    requires |us| < |proof.ls| == |proof.rs|
    ensures
      var j := |us|;
      var log' := log + [Append("L", proof.ls[j]), Append("R", proof.rs[j]), Drawn("u")];
      ReadFurther(o, log, us, proof) ==
        if proof.ls[j] == Encoded(Identity) || proof.rs[j] == Encoded(Identity) then None
        else ReadFurther(o, log', us + [o(log')], proof)
  {
    var j := |us|;
    var ls, rs := proof.ls[j..], proof.rs[j..];
    assert ls[1..] == proof.ls[j + 1..] && rs[1..] == proof.rs[j + 1..];
    assert ls[0] == proof.ls[j] && rs[0] == proof.rs[j];
    var log' := log + [Append("L", ls[0]), Append("R", rs[0]), Drawn("u")];
    var rest := ReadRounds(o, log', ls[1..], rs[1..]);
    if rest.Some? {
      assert us + ([o(log')] + rest.value.0) == us + [o(log')] + rest.value.0;
    }
  }

  lemma ReadAll(o: Oracle, log: Log, us: seq<Scalar>, proof: Proof)
    requires |us| == |proof.ls| == |proof.rs|
    ensures ReadFurther(o, log, us, proof) == Some((us, log))
  {
    assert us + [] == us;
  }

  // A proof whose challenges can be drawn.
  predicate Readable(o: Oracle, start: Log, proof: Proof, n: nat)
    requires |proof.ls| == |proof.rs|
  {
    |proof.ls| < 32 && n == Pow2(|proof.ls|) && ReadRounds(o, start + [DomainSeparator(n)], proof.ls, proof.rs).Some?
  }

  // The challenges of a readable proof, and the transcript after the last of them.
  function Reading(o: Oracle, start: Log, proof: Proof, n: nat): (r: (seq<Scalar>, Log))
    requires |proof.ls| == |proof.rs| && Readable(o, start, proof, n)
    ensures |r.0| == |proof.ls|
  {
    ReadsEach(o, start + [DomainSeparator(n)], proof.ls, proof.rs);
    ReadRounds(o, start + [DomainSeparator(n)], proof.ls, proof.rs).value
  }

  lemma {:induction false} ReadsEach(o: Oracle, log: Log, ls: seq<Encoding>, rs: seq<Encoding>)
    requires |ls| == |rs|
    ensures var read := ReadRounds(o, log, ls, rs); read.Some? ==> |read.value.0| == |ls|
    decreases |ls|
  {
    if |ls| > 0 {
      ReadsEach(o, log + [Append("L", ls[0]), Append("R", rs[0]), Drawn("u")], ls[1..], rs[1..]);
    }
  }

  // The rounds a proof claims, whoever made it.
  function RoundsOf(us: seq<Scalar>, ls: seq<Element>, rs: seq<Element>): (r: seq<Round>)
    requires |us| == |ls| == |rs|
    ensures |r| == |us|
  {
    seq(|us|, i requires 0 <= i < |us| => Round(ls[i], rs[i], us[i]))
  }

  // P + sum of u_j^2 L_j + u_j^-2 R_j == a G' + b H' + a b Q
  predicate Balanced(rounds: seq<Round>, a: Scalar, b: Scalar, P: Element, Q: Element, G': Element, H': Element) {
    Red(P + CrossSum(rounds)) == Red(Times(a, G') + Times(b, H') + Times(Times(a, b), Q))
  }

  // The equation of a proof: G' and H' are the weighted bases folded round by round.
  predicate Balances(proof: Proof, us: seq<Scalar>, Gf: seq<Scalar>, Hf: seq<Scalar>, P: Element, Q: Element, G: seq<Element>, H: seq<Element>)
    requires |proof.ls| == |proof.rs| == |us| && |Gf| == |Hf| == |G| == |H| == Pow2(|us|)
    requires AllDecode(proof.ls) && AllDecode(proof.rs)
  {
    var uis := EachInverse(us);
    var G', H' := FoldAll(Hadamard(Gf, G), uis, us), FoldAll(Hadamard(Hf, H), us, uis);
    Balanced(RoundsOf(us, Decompressed(proof.ls), Decompressed(proof.rs)), proof.a, proof.b, P, Q, G', H')
  }

  // Soundness of the equation: whoever made the proof, a readable one with nonzero
  // challenges verifies exactly when its folded equation balances.
  method Verify(o: Oracle, start: Log, proof: Proof, n: nat, Gf: seq<Scalar>, Hf: seq<Scalar>, P: Element, Q: Element, G: seq<Element>, H: seq<Element>)
    returns (r: Result<(), ProofError>, log: Log)
    requires |proof.ls| == |proof.rs|
    ensures r.Ok? <==> Accepts(o, start, proof, n, Gf, Hf, P, Q, G, H)
    ensures r.Ok? ==>
      && |G| == |H| == |Gf| == |Hf| == n && Readable(o, start, proof, n) && log == Reading(o, start, proof, n).1
      && AllDecode(proof.ls) && AllDecode(proof.rs)
    ensures |G| == |H| == |Gf| == |Hf| == n && Readable(o, start, proof, n) && AllDecode(proof.ls) && AllDecode(proof.rs) ==>
      var us := Reading(o, start, proof, n).0;
      0 !in us ==> (r.Ok? <==> Balances(proof, us, Gf, Hf, P, Q, G, H))
  {
    log := start;
    if |G| != n || |H| != n || |Gf| != n || |Hf| != n {
      return Err(VerificationError), log;
    }
    var scalars;
    scalars, log := VerificationScalars(o, start, proof, n);
    if scalars.Err? {
      return Err(VerificationError), log;
    }
    var (squares, inverseSquares, s) := scalars.value;
    if !AllDecode(proof.ls) || !AllDecode(proof.rs) {
      return Err(VerificationError), log;
    }
    AcceptedBalances(o, start, proof, n, Gf, Hf, P, Q, G, H);
    var expected := Msm(
      [Mul(proof.a, proof.b)] + Weighted(proof.a, s, Gf) + Weighted(proof.b, Reversed(s), Hf) + Negated(squares) + Negated(inverseSquares),
      [Q] + G + H + Decompressed(proof.ls) + Decompressed(proof.rs));
    r := if expected == P then Ok(()) else Err(VerificationError);
  }

  // ----- the transcript binds what was read -----

  lemma {:induction false} ReadingExtends(o: Oracle, log: Log, ls: seq<Encoding>, rs: seq<Encoding>)
    requires |ls| == |rs| && ReadRounds(o, log, ls, rs).Some?
    ensures var end := ReadRounds(o, log, ls, rs).value.1; |end| == |log| + 3 * |ls| && end[..|log|] == log
    decreases |ls|
  {
    if |ls| > 0 {
      var log' := log + [Append("L", ls[0]), Append("R", rs[0]), Drawn("u")];
      ReadingExtends(o, log', ls[1..], rs[1..]);
      var end := ReadRounds(o, log, ls, rs).value.1;
      assert end[..|log|] == end[..|log'|][..|log|] == log'[..|log|];
    }
  }

  // Readings of one length that end in one transcript started from one and read the same terms.
  lemma {:induction false} RoundsBind(o: Oracle, o': Oracle, log: Log, log': Log, ls: seq<Encoding>, rs: seq<Encoding>, ls': seq<Encoding>, rs': seq<Encoding>)
    requires |ls| == |rs| == |ls'| == |rs'| && |log| == |log'|
    requires ReadRounds(o, log, ls, rs).Some? && ReadRounds(o', log', ls', rs').Some?
    requires ReadRounds(o, log, ls, rs).value.1 == ReadRounds(o', log', ls', rs').value.1
    ensures log == log' && ls == ls' && rs == rs'
    decreases |ls|
  {
    if |ls| > 0 {
      var next := log + [Append("L", ls[0]), Append("R", rs[0]), Drawn("u")];
      var next' := log' + [Append("L", ls'[0]), Append("R", rs'[0]), Drawn("u")];
      RoundsBind(o, o', next, next', ls[1..], rs[1..], ls'[1..], rs'[1..]);
      assert next[..|log|] == log && next'[..|log|] == log';
      assert next[|log|] == next'[|log|] && next[|log| + 1] == next'[|log| + 1];
      assert ls == [ls[0]] + ls[1..] && ls' == [ls'[0]] + ls'[1..];
      assert rs == [rs[0]] + rs[1..] && rs' == [rs'[0]] + rs'[1..];
    }
  }

  // Two readings from one transcript that end in one transcript read the same length and
  // the same cross terms, whatever the oracles.
  lemma ReadingBinds(o: Oracle, o': Oracle, start: Log, proof: Proof, proof': Proof, n: nat, n': nat)
    requires |proof.ls| == |proof.rs| && |proof'.ls| == |proof'.rs|
    requires Readable(o, start, proof, n) && Readable(o', start, proof', n')
    requires Reading(o, start, proof, n).1 == Reading(o', start, proof', n').1
    ensures n == n' && proof.ls == proof'.ls && proof.rs == proof'.rs
  {
    var log, log' := start + [DomainSeparator(n)], start + [DomainSeparator(n')];
    ReadingExtends(o, log, proof.ls, proof.rs);
    ReadingExtends(o', log', proof'.ls, proof'.rs);
    assert log[|start|] == log'[|start|];
    RoundsBind(o, o', log, log', proof.ls, proof.rs, proof'.ls, proof'.rs);
  }

  // ----- the verifier recovers the prover's challenges -----

  lemma {:induction false} ReadsProof(o: Oracle, log: Log, x: Instance, k: nat)
    requires Sized(x, Pow2(k)) && GoodRounds(Prove(o, log, x, k).rounds)
    ensures
      var run := Prove(o, log, x, k);
      ReadRounds(o, log, ProofOf(run).ls, ProofOf(run).rs) == Some((Challenges(run.rounds), run.log))
    decreases k
  {
    if k > 0 {
      var round := FirstRound(o, log, x);
      var rest := Prove(o, Sent(log, round.l, round.r), Folded(x, round.u), k - 1);
      assert ([round] + rest.rounds)[0] == round && ([round] + rest.rounds)[1..] == rest.rounds;
      RoundsTail([round] + rest.rounds);
      ReadsProof(o, Sent(log, round.l, round.r), Folded(x, round.u), k - 1);
      ReadsRound(o, log, round, rest.rounds, rest.log);
    }
  }

  lemma ReadsRound(o: Oracle, log: Log, round: Round, rest: seq<Round>, end: Log)
    requires round.l != Identity && round.r != Identity && round.u == o(Sent(log, round.l, round.r))
    requires ReadRounds(o, Sent(log, round.l, round.r), Lefts(rest), Rights(rest)) == Some((Challenges(rest), end))
    ensures ReadRounds(o, log, Lefts([round] + rest), Rights([round] + rest)) == Some((Challenges([round] + rest), end))
  {
    var rounds := [round] + rest;
    assert Lefts(rounds)[1..] == Lefts(rest) && Rights(rounds)[1..] == Rights(rest);
    assert Challenges(rounds) == [round.u] + Challenges(rest);
  }

  // ----- the closed form of s -----

  predicate InversePairs(xs: seq<int>, ys: seq<int>) {
    |xs| == |ys| && forall i :: 0 <= i < |xs| ==> Red(Times(xs[i], ys[i])) == 1
  }

  lemma {:induction false} FirstBitProduct(xs: seq<int>, ys: seq<int>)
    requires |xs| == |ys|
    ensures BitProducts(xs, ys)[0] == ProductOf(xs)
  {
    if |xs| > 0 {
      FirstBitProduct(xs[1..], ys[1..]);
    }
  }

  // Setting the top bit of the index multiplies the entry by a squared challenge.
  lemma {:induction false} BitProductStep(xs: seq<int>, ys: seq<int>, i: nat)
    requires InversePairs(xs, ys) && 0 < i < Pow2(|xs|)
    ensures 1 <= NumBits(i) <= |xs| && Pow2(NumBits(i) - 1) <= i
    ensures
      var lg := NumBits(i) - 1;
      var y := ys[|xs| - 1 - lg];
      Red(BitProducts(xs, ys)[i]) == Red(Times(BitProducts(xs, ys)[i - Pow2(lg)], Times(y, y)))
  {
    var k := |xs|;
    TopBit(i, k);
    var lg := NumBits(i) - 1;
    var s := BitProducts(xs[1..], ys[1..]);
    var half := Pow2(k - 1);
    if i >= half {
      assert lg == k - 1 by {
        if lg < k - 1 {
          Pow2Monotone(lg + 1, k - 1);
        }
      }
      SquareStep(xs[0], ys[0], s[i - half]);
    } else {
      assert InversePairs(xs[1..], ys[1..]);
      BitProductStep(xs[1..], ys[1..], i);
      var y := ys[k - 1 - lg];
      assert ys[1..][k - 1 - 1 - lg] == y;
      RedMul(xs[0], xs[0], s[i], Times(s[i - Pow2(lg)], Times(y, y)));
      TimesAssociates(xs[0], s[i - Pow2(lg)], Times(y, y));
    }
  }

  lemma SquareStep(x: int, y: int, s: int)
    requires Red(Times(x, y)) == 1
    ensures Red(Times(y, s)) == Red(Times(Times(x, s), Times(y, y)))
  {
    UnitTimes(x, y, Times(y, s));
    TimesAssociates(x, s, Times(y, y));
    TimesReassociate(s, y, y);
    TimesCommutes(s, y);
    TimesCommutes(Times(y, s), y);
  }

  lemma {:induction false} ClosedFormIsBitProducts(xs: seq<Scalar>, ys: seq<Scalar>, n: nat)
    requires InversePairs(xs, ys) && 0 < n <= Pow2(|xs|)
    ensures ClosedForm(Red(ProductOf(xs)), Squares(ys), n) == Reduced(BitProducts(xs, ys))[..n]
  {
    if n == 1 {
      FirstEntry(xs, ys);
    } else {
      ClosedFormIsBitProducts(xs, ys, n - 1);
      ClosedFormExtends(xs, ys, n - 1, Reduced(BitProducts(xs, ys)));
    }
  }

  lemma FirstEntry(xs: seq<Scalar>, ys: seq<Scalar>)
    requires |xs| == |ys|
    ensures Reduced(BitProducts(xs, ys))[..1] == [Red(ProductOf(xs))]
  {
    FirstBitProduct(xs, ys);
  }

  lemma ClosedFormExtends(xs: seq<Scalar>, ys: seq<Scalar>, i: nat, r: seq<Scalar>)
    requires InversePairs(xs, ys) && 0 < i < Pow2(|xs|) && r == Reduced(BitProducts(xs, ys))
    requires ClosedForm(Red(ProductOf(xs)), Squares(ys), i) == r[..i]
    ensures ClosedForm(Red(ProductOf(xs)), Squares(ys), i + 1) == r[..i + 1]
  {
    EntryStep(xs, ys, i);
    assert r[..i + 1] == r[..i] + [r[i]];
  }

  lemma EntryStep(xs: seq<Scalar>, ys: seq<Scalar>, i: nat)
    requires InversePairs(xs, ys) && 0 < i < Pow2(|xs|)
    ensures 1 <= NumBits(i) <= |xs| && Pow2(NumBits(i) - 1) <= i
    ensures
      var lg := NumBits(i) - 1;
      var r := Reduced(BitProducts(xs, ys));
      r[i] == Mul(r[i - Pow2(lg)], Squares(ys)[|xs| - 1 - lg])
  {
    BitProductStep(xs, ys, i);
    var lg := NumBits(i) - 1;
    var y := ys[|xs| - 1 - lg];
    var p := BitProducts(xs, ys)[i - Pow2(lg)];
    RedMul(Red(p), p, Mul(y, y), Times(y, y));
  }

  // Reading s backwards exchanges every challenge with its inverse.
  lemma {:induction false} BitProductsReversed(xs: seq<int>, ys: seq<int>, s: seq<int>, t: seq<int>, i: nat)
    requires |xs| == |ys| && s == BitProducts(xs, ys) && t == BitProducts(ys, xs) && i < Pow2(|xs|)
    ensures s[Pow2(|xs|) - 1 - i] == t[i]
    decreases |xs|
  {
    if |xs| > 0 {
      var half := Pow2(|xs| - 1);
      var s', t' := BitProducts(xs[1..], ys[1..]), BitProducts(ys[1..], xs[1..]);
      BitProductsReversed(xs[1..], ys[1..], s', t', if i < half then i else i - half);
      assert s == Scale(xs[0], s') + Scale(ys[0], s') && t == Scale(ys[0], t') + Scale(xs[0], t');
      assert Pow2(|xs|) == 2 * half;
      ReversedStep(xs[0], ys[0], s', t', half, i);
    } else {
      assert s == [1] && t == [1];
    }
  }

  lemma ReversedStep(x: int, y: int, s: seq<int>, t: seq<int>, half: nat, i: nat)
    requires |s| == |t| == half && i < 2 * half
    requires var j := if i < half then i else i - half; s[half - 1 - j] == t[j]
    ensures (Scale(x, s) + Scale(y, s))[2 * half - 1 - i] == (Scale(y, t) + Scale(x, t))[i]
  {
  }

  lemma InversesPair(us: seq<Scalar>)
    requires 0 !in us
    ensures Inverses(us) == EachInverse(us) && InversePairs(EachInverse(us), us)
  {
    forall i | 0 <= i < |us|
      ensures Red(Times(EachInverse(us)[i], us[i])) == 1
    {
      assert us[i] in us;
      InverseLaw(us[i]);
      TimesCommutes(us[i], Inverse(us[i]));
    }
  }

  // ----- the verification equation -----

  lemma WeightedDot(c: Scalar, s: seq<Scalar>, f: seq<Scalar>, G: seq<Element>)
    requires |s| == |f| == |G|
    ensures Red(Dot(Weighted(c, s, f), G)) == Red(Times(c, Dot(s, Hadamard(f, G))))
  {
    var exact := Scale(c, Hadamard(s, f));
    forall i | 0 <= i < |s|
      ensures Red(Weighted(c, s, f)[i]) == Red(exact[i])
    {
      MulAssociates(c, s[i], f[i]);
    }
    DotSame(Weighted(c, s, f), exact, G, G);
    DotScale(c, Hadamard(s, f), G);
    DotHadamard(s, f, G);
    RedMul(c, c, Dot(Hadamard(s, f), G), Dot(s, Hadamard(f, G)));
  }

  // The weighted bases sum to c times the base folded by all challenges.
  lemma WeightedIsFolded(c: Scalar, s: seq<Scalar>, f: seq<Scalar>, G: seq<Element>, xs: seq<Scalar>, ys: seq<Scalar>)
    requires |xs| == |ys| && |s| == |f| == |G| == Pow2(|xs|)
    requires s == Reduced(BitProducts(xs, ys))
    ensures Red(Dot(Weighted(c, s, f), G)) == Red(Times(c, FoldAll(Hadamard(f, G), xs, ys)))
  {
    var v := Hadamard(f, G);
    WeightedDot(c, s, f, G);
    ReducedSame(BitProducts(xs, ys));
    DotSame(s, BitProducts(xs, ys), v, v);
    BitProductsFold(v, xs, ys);
    RedMul(c, c, Dot(s, v), FoldAll(v, xs, ys));
  }

  function LeftsOf(rounds: seq<Round>): (r: seq<Element>)
    ensures |r| == |rounds|
  {
    seq(|rounds|, i requires 0 <= i < |rounds| => rounds[i].l)
  }

  function RightsOf(rounds: seq<Round>): (r: seq<Element>)
    ensures |r| == |rounds|
  {
    seq(|rounds|, i requires 0 <= i < |rounds| => rounds[i].r)
  }

  // The negated squares against all L and R.
  function NegatedCross(rounds: seq<Round>): int {
    var us := Challenges(rounds);
    Dot(Negated(Squares(us)), LeftsOf(rounds)) + Dot(Negated(Squares(EachInverse(us))), RightsOf(rounds))
  }

  lemma {:induction false} NegatedCrossSum(rounds: seq<Round>)
    ensures Red(NegatedCross(rounds)) == Red(-CrossSum(rounds))
  {
    var us := Challenges(rounds);
    var uis := EachInverse(us);
    var nu, ni, l, r := Negated(Squares(us)), Negated(Squares(uis)), LeftsOf(rounds), RightsOf(rounds);
    if |rounds| == 0 {
      DotEnds(nu, l);
      DotEnds(ni, r);
    } else {
      var first, rest := rounds[0], rounds[1..];
      NegatedCrossSum(rest);
      RoundsTail(rounds);
      HeadDot(nu, l);
      HeadDot(ni, r);
      assert nu[1..] == Negated(Squares(us[1..])) && ni[1..] == Negated(Squares(uis[1..]));
      assert l[1..] == LeftsOf(rest) && r[1..] == RightsOf(rest);
      NegatedTerm(first.u, first.l);
      NegatedTerm(Inverse(first.u), first.r);
      NegatedStep(Times(nu[0], l[0]), Times(Times(first.u, first.u), first.l),
                  Times(ni[0], r[0]), Times(Times(Inverse(first.u), Inverse(first.u)), first.r),
                  Dot(nu[1..], l[1..]), Dot(ni[1..], r[1..]), CrossSum(rest));
    }
  }

  lemma HeadDot(a: seq<int>, b: seq<int>)
    requires |a| == |b| > 0
    ensures Dot(a, b) == Times(a[0], b[0]) + Dot(a[1..], b[1..])
  {
    assert a == [a[0]] + a[1..] && b == [b[0]] + b[1..];
    DotConcat([a[0]], a[1..], [b[0]], b[1..]);
    DotEnds([a[0]], [b[0]]);
  }

  lemma NegatedTerm(u: Scalar, p: Element)
    ensures Red(Times(Neg(Mul(u, u)), p)) == Red(-Times(Times(u, u), p))
  {
    RedSub(0, 0, Mul(u, u), Times(u, u));
    RedMul(Neg(Mul(u, u)), 0 - Times(u, u), p, p);
    TimesDistributes(p, 0, Times(u, u));
    TimesUnits(p);
  }

  lemma NegatedStep(x: int, x': int, y: int, y': int, a: int, b: int, rest: int)
    requires Red(x) == Red(-x') && Red(y) == Red(-y') && Red(a + b) == Red(-rest)
    ensures Red(x + a + (y + b)) == Red(-(x' + y' + rest))
  {
    RedAdd(x, -x', y, -y');
    RedAdd(x + y, -x' + -y', a + b, -rest);
    assert x + a + (y + b) == x + y + (a + b);
    assert -(x' + y' + rest) == -x' + -y' + -rest;
  }

  lemma FiveBlocks(a: seq<int>, a': seq<int>, b: seq<int>, b': seq<int>, c: seq<int>, c': seq<int>, d: seq<int>, d': seq<int>, x: int, Q: int)
    requires |a| == |a'| && |b| == |b'| && |c| == |c'| && |d| == |d'|
    ensures Dot([x] + a + b + c + d, [Q] + a' + b' + c' + d') == Times(x, Q) + Dot(a, a') + Dot(b, b') + (Dot(c, c') + Dot(d, d'))
  {
    DotEnds([x], [Q]);
    DotConcat([x], a, [Q], a');
    DotConcat([x] + a, b, [Q] + a', b');
    DotConcat([x] + a + b, c, [Q] + a' + b', c');
    DotConcat([x] + a + b + c, d, [Q] + a' + b' + c', d');
  }

  // The recomputed point plus the cross terms is the claim about the folded bases.
  lemma ExpectedBalances(proof: Proof, us: seq<Scalar>, Gf: seq<Scalar>, Hf: seq<Scalar>, Q: Element, G: seq<Element>, H: seq<Element>)
    requires |proof.ls| == |proof.rs| == |us| && |Gf| == |Hf| == |G| == |H| == Pow2(|us|)
    requires AllDecode(proof.ls) && AllDecode(proof.rs) && 0 !in us
    ensures Balances(proof, us, Gf, Hf, ExpectedPoint(proof, us, Gf, Hf, Q, G, H), Q, G, H)
  {
    var ls, rs := Decompressed(proof.ls), Decompressed(proof.rs);
    var g, h, l, r := ExpectedBlocks(proof, us, Gf, Hf, Q, G, H);
    BlocksBalance(proof.a, proof.b, Q, g, G, h, H, l, ls, r, rs, RoundsOf(us, ls, rs),
                  FoldAll(Hadamard(Gf, G), EachInverse(us), us), FoldAll(Hadamard(Hf, H), us, EachInverse(us)));
  }

  lemma BlocksBalance(a: Scalar, b: Scalar, Q: Element, g: seq<Scalar>, G: seq<Element>, h: seq<Scalar>, H: seq<Element>,
                      l: seq<Scalar>, ls: seq<Element>, r: seq<Scalar>, rs: seq<Element>, rounds: seq<Round>, G': Element, H': Element)
    requires |g| == |G| && |h| == |H| && |l| == |ls| && |r| == |rs|
    requires Red(Dot(g, G)) == Red(Times(a, G')) && Red(Dot(h, H)) == Red(Times(b, H')) && Red(Dot(l, ls) + Dot(r, rs)) == Red(-CrossSum(rounds))
    ensures Balanced(rounds, a, b, Msm([Mul(a, b)] + g + h + l + r, [Q] + G + H + ls + rs), Q, G', H')
  {
    FiveBlocks(g, G, h, H, l, ls, r, rs, Mul(a, b), Q);
    ExpectedAlgebra(a, b, Q, Dot(g, G), G', Dot(h, H), H', Dot(l, ls) + Dot(r, rs), CrossSum(rounds));
  }

  // The four blocks of the verifier's scalars: two weigh the bases as the folds do, and two
  // the cross terms.
  lemma ExpectedBlocks(proof: Proof, us: seq<Scalar>, Gf: seq<Scalar>, Hf: seq<Scalar>, Q: Element, G: seq<Element>, H: seq<Element>)
    returns (g: seq<Scalar>, h: seq<Scalar>, l: seq<Scalar>, r: seq<Scalar>)
    requires |proof.ls| == |proof.rs| == |us| && |Gf| == |Hf| == |G| == |H| == Pow2(|us|)
    requires AllDecode(proof.ls) && AllDecode(proof.rs) && 0 !in us
    ensures |g| == |G| && |h| == |H| && |l| == |r| == |us|
    ensures ExpectedPoint(proof, us, Gf, Hf, Q, G, H) ==
      Msm([Mul(proof.a, proof.b)] + g + h + l + r, [Q] + G + H + Decompressed(proof.ls) + Decompressed(proof.rs))
    ensures Red(Dot(g, G)) == Red(Times(proof.a, FoldAll(Hadamard(Gf, G), EachInverse(us), us)))
    ensures Red(Dot(h, H)) == Red(Times(proof.b, FoldAll(Hadamard(Hf, H), us, EachInverse(us))))
    ensures
      var ls, rs := Decompressed(proof.ls), Decompressed(proof.rs);
      Red(Dot(l, ls) + Dot(r, rs)) == Red(-CrossSum(RoundsOf(us, ls, rs)))
  {
    InversesPair(us);
    var uis := EachInverse(us);
    var s := ClosedForm(Red(ProductOf(uis)), Squares(us), Pow2(|us|));
    g, h := Weighted(proof.a, s, Gf), Weighted(proof.b, Reversed(s), Hf);
    l, r := Negated(Squares(us)), Negated(Squares(uis));
    ScalarsFold(proof.a, us, Gf, G, s);
    ReversedFold(proof.b, us, Hf, H, s);
    CrossBlocks(us, Decompressed(proof.ls), Decompressed(proof.rs));
  }

  lemma ScalarsFold(a: Scalar, us: seq<Scalar>, f: seq<Scalar>, G: seq<Element>, s: seq<Scalar>)
    requires |f| == |G| == Pow2(|us|) && 0 !in us && s == ClosedForm(Red(ProductOf(EachInverse(us))), Squares(us), Pow2(|us|))
    ensures Red(Dot(Weighted(a, s, f), G)) == Red(Times(a, FoldAll(Hadamard(f, G), EachInverse(us), us)))
  {
    var uis := EachInverse(us);
    InversesPair(us);
    ClosedFormIsBitProducts(uis, us, Pow2(|us|));
    assert s == Reduced(BitProducts(uis, us));
    WeightedIsFolded(a, s, f, G, uis, us);
  }

  lemma ReversedFold(b: Scalar, us: seq<Scalar>, f: seq<Scalar>, H: seq<Element>, s: seq<Scalar>)
    requires |f| == |H| == Pow2(|us|) && 0 !in us && s == ClosedForm(Red(ProductOf(EachInverse(us))), Squares(us), Pow2(|us|))
    ensures Red(Dot(Weighted(b, Reversed(s), f), H)) == Red(Times(b, FoldAll(Hadamard(f, H), us, EachInverse(us))))
  {
    var uis := EachInverse(us);
    InversesPair(us);
    ClosedFormIsBitProducts(uis, us, Pow2(|us|));
    assert s == Reduced(BitProducts(uis, us));
    ReversedBitProducts(uis, us);
    WeightedIsFolded(b, Reversed(s), f, H, us, uis);
  }

  lemma CrossBlocks(us: seq<Scalar>, ls: seq<Element>, rs: seq<Element>)
    requires |us| == |ls| == |rs|
    ensures Red(Dot(Negated(Squares(us)), ls) + Dot(Negated(Squares(EachInverse(us))), rs)) == Red(-CrossSum(RoundsOf(us, ls, rs)))
  {
    var rounds := RoundsOf(us, ls, rs);
    assert Challenges(rounds) == us && LeftsOf(rounds) == ls && RightsOf(rounds) == rs;
    NegatedCrossSum(rounds);
  }

  // At most one point balances a proof's equation.
  lemma BalancedPointIsUnique(rounds: seq<Round>, a: Scalar, b: Scalar, P: Element, P': Element, Q: Element, G': Element, H': Element)
    requires Balanced(rounds, a, b, P, Q, G', H') && Balanced(rounds, a, b, P', Q, G', H')
    ensures P == P'
  {
    var cross := CrossSum(rounds);
    RedAdd(P + cross, P' + cross, -cross, -cross);
  }

  lemma BalancesForOne(proof: Proof, us: seq<Scalar>, Gf: seq<Scalar>, Hf: seq<Scalar>, P: Element, P': Element, Q: Element, G: seq<Element>, H: seq<Element>)
    requires |proof.ls| == |proof.rs| == |us| && |Gf| == |Hf| == |G| == |H| == Pow2(|us|)
    requires AllDecode(proof.ls) && AllDecode(proof.rs)
    requires Balances(proof, us, Gf, Hf, P, Q, G, H) && Balances(proof, us, Gf, Hf, P', Q, G, H)
    ensures P == P'
  {
    var uis := EachInverse(us);
    var rounds := RoundsOf(us, Decompressed(proof.ls), Decompressed(proof.rs));
    BalancedPointIsUnique(rounds, proof.a, proof.b, P, P', Q, FoldAll(Hadamard(Gf, G), uis, us), FoldAll(Hadamard(Hf, H), us, uis));
  }

  lemma AcceptedBalances(o: Oracle, start: Log, proof: Proof, n: nat, Gf: seq<Scalar>, Hf: seq<Scalar>, P: Element, Q: Element, G: seq<Element>, H: seq<Element>)
    requires |proof.ls| == |proof.rs| && |G| == |H| == |Gf| == |Hf| == n && Readable(o, start, proof, n)
    requires AllDecode(proof.ls) && AllDecode(proof.rs)
    ensures
      var us := Reading(o, start, proof, n).0;
      0 !in us ==> (Accepts(o, start, proof, n, Gf, Hf, P, Q, G, H) <==> Balances(proof, us, Gf, Hf, P, Q, G, H))
  {
    var us := Reading(o, start, proof, n).0;
    if 0 !in us {
      ExpectedBalances(proof, us, Gf, Hf, Q, G, H);
      var expected := ExpectedPoint(proof, us, Gf, Hf, Q, G, H);
      if Balances(proof, us, Gf, Hf, P, Q, G, H) {
        BalancesForOne(proof, us, Gf, Hf, P, expected, Q, G, H);
      }
    }
  }

  // One proof, transcript and set of bases is accepted for at most one point.
  lemma AcceptedForOnePoint(o: Oracle, start: Log, proof: Proof, n: nat, Gf: seq<Scalar>, Hf: seq<Scalar>, P: Element, P': Element, Q: Element, G: seq<Element>, H: seq<Element>)
    requires |proof.ls| == |proof.rs|
    requires Accepts(o, start, proof, n, Gf, Hf, P, Q, G, H) && Accepts(o, start, proof, n, Gf, Hf, P', Q, G, H)
    ensures P == P'
  {
  }

  // The point the verifier recomputes from an honest run is its initial claim.
  lemma ExpectedIsClaim(o: Oracle, log: Log, Q: Element, Gf: seq<Scalar>, Hf: seq<Scalar>, G: seq<Element>, H: seq<Element>, a: seq<Scalar>, b: seq<Scalar>, k: nat)
    requires |G| == |H| == |Gf| == |Hf| == |a| == |b| == Pow2(k)
    requires
      var x := Instance(Q, Hadamard(Gf, G), Hadamard(Hf, H), a, b);
      GoodRounds(Prove(o, log, x, k).rounds)
    ensures
      var x := Instance(Q, Hadamard(Gf, G), Hadamard(Hf, H), a, b);
      var run := Prove(o, log, x, k);
      ExpectedPoint(ProofOf(run), Challenges(run.rounds), Gf, Hf, Q, G, H) == Red(Claim(x))
  {
    var x := Instance(Q, Hadamard(Gf, G), Hadamard(Hf, H), a, b);
    var run := Prove(o, log, x, k);
    var us := Challenges(run.rounds);
    var proof := ProofOf(run);
    ChallengesNonzero(run.rounds);
    assert RoundsOf(us, Decompressed(proof.ls), Decompressed(proof.rs)) == run.rounds;
    ExpectedBalances(proof, us, Gf, Hf, Q, G, H);
    RunKeepsClaim(o, log, x, k);
    var cross := CrossSum(run.rounds);
    RedAdd(Claim(x), Red(Claim(x)), cross, cross);
    BalancesForOne(proof, us, Gf, Hf, ExpectedPoint(proof, us, Gf, Hf, Q, G, H), Red(Claim(x)), Q, G, H);
  }

  lemma ChallengesNonzero(rounds: seq<Round>)
    requires GoodRounds(rounds)
    ensures 0 !in Challenges(rounds)
  {
  }

  lemma ReversedBitProducts(xs: seq<int>, ys: seq<int>)
    requires |xs| == |ys|
    ensures Reversed(Reduced(BitProducts(xs, ys))) == Reduced(BitProducts(ys, xs))
  {
    var n := Pow2(|xs|);
    forall i | 0 <= i < n
      ensures Reversed(Reduced(BitProducts(xs, ys)))[i] == Reduced(BitProducts(ys, xs))[i]
    {
      BitProductsReversed(xs, ys, BitProducts(xs, ys), BitProducts(ys, xs), i);
    }
  }

  lemma ExpectedAlgebra(a: Scalar, b: Scalar, Q: Element, ga: int, G': Element, hb: int, H': Element, negated: int, cross: int)
    requires Red(ga) == Red(Times(a, G')) && Red(hb) == Red(Times(b, H')) && Red(negated) == Red(-cross)
    ensures Red(Red(Times(Mul(a, b), Q) + ga + hb + negated) + cross) == Red(Times(a, G') + Times(b, H') + Times(Times(a, b), Q))
  {
    var final := Times(a, G') + Times(b, H') + Times(Times(a, b), Q);
    RedMul(Mul(a, b), Times(a, b), Q, Q);
    RedAdd(Times(Mul(a, b), Q), Times(Times(a, b), Q), ga, Times(a, G'));
    RedAdd(Times(Mul(a, b), Q) + ga, Times(Times(a, b), Q) + Times(a, G'), hb, Times(b, H'));
    RedAdd(Times(Mul(a, b), Q) + ga + hb, final, negated, -cross);
    var point := Times(Mul(a, b), Q) + ga + hb + negated;
    RedAdd(Red(point), final - cross, cross, cross);
  }

  // The commitment <a . Gf, G> + <b . Hf, H> + <a, b> Q.
  function Commitment(Q: Element, Gf: seq<Scalar>, Hf: seq<Scalar>, G: seq<Element>, H: seq<Element>, a: seq<Scalar>, b: seq<Scalar>): Element
    requires |G| == |H| == |Gf| == |Hf| == |a| == |b|
  {
    Msm(Hadamard(a, Gf) + Hadamard(b, Hf) + [Red(Dot(a, b))], G + H + [Q])
  }

  lemma CommitmentIsClaim(Q: Element, Gf: seq<Scalar>, Hf: seq<Scalar>, G: seq<Element>, H: seq<Element>, a: seq<Scalar>, b: seq<Scalar>)
    requires |G| == |H| == |Gf| == |Hf| == |a| == |b|
    ensures Commitment(Q, Gf, Hf, G, H, a, b) == Red(Claim(Instance(Q, Hadamard(Gf, G), Hadamard(Hf, H), a, b)))
  {
    var c := Dot(a, b);
    DotTriple(Hadamard(a, Gf), Hadamard(b, Hf), Red(c), G, H, Q);
    DotHadamard(a, Gf, G);
    DotHadamard(b, Hf, H);
    var left, left' := Dot(Hadamard(a, Gf), G), Dot(a, Hadamard(Gf, G));
    var right, right' := Dot(Hadamard(b, Hf), H), Dot(b, Hadamard(Hf, H));
    ReducedTerm(left + right, c, Q);
    RedAdd(left, left', right, right');
    RedAdd(left + right, left' + right', Times(c, Q), Times(c, Q));
  }

  // Completeness, for every vector length 2^k below 2^32: the proof of the plain
  // protocol is accepted unless a challenge is zero or an L or R is the identity.
  lemma InnerProductComplete(o: Oracle, log: Log, Q: Element, Gf: seq<Scalar>, Hf: seq<Scalar>, G: seq<Element>, H: seq<Element>, a: seq<Scalar>, b: seq<Scalar>, k: nat)
    requires k < 32 && |G| == |H| == |Gf| == |Hf| == |a| == |b| == Pow2(k)
    requires
      var x := Instance(Q, Hadamard(Gf, G), Hadamard(Hf, H), a, b);
      GoodRounds(Prove(o, log + [DomainSeparator(Pow2(k))], x, k).rounds)
    ensures
      var x := Instance(Q, Hadamard(Gf, G), Hadamard(Hf, H), a, b);
      var run := Prove(o, log + [DomainSeparator(Pow2(k))], x, k);
      Accepts(o, log, ProofOf(run), Pow2(k), Gf, Hf, Commitment(Q, Gf, Hf, G, H, a, b), Q, G, H)
  {
    var x := Instance(Q, Hadamard(Gf, G), Hadamard(Hf, H), a, b);
    var log' := log + [DomainSeparator(Pow2(k))];
    ReadsProof(o, log', x, k);
    ExpectedIsClaim(o, log', Q, Gf, Hf, G, H, a, b, k);
    CommitmentIsClaim(Q, Gf, Hf, G, H, a, b);
  }

  // An identity L or R is the one honest case the verifier rejects outright.
  lemma {:induction false} IdentityCrossTermRejected(o: Oracle, log: Log, ls: seq<Encoding>, rs: seq<Encoding>, i: nat)
    requires i < |ls| == |rs| && (ls[i] == Encoded(Identity) || rs[i] == Encoded(Identity))
    ensures ReadRounds(o, log, ls, rs).None?
    decreases i
  {
    if i > 0 && ls[0] != Encoded(Identity) && rs[0] != Encoded(Identity) {
      IdentityCrossTermRejected(o, log + [Append("L", ls[0]), Append("R", rs[0]), Drawn("u")], ls[1..], rs[1..], i - 1);
    }
  }
}
