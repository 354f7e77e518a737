// The linear argument's verifier, its prover as a program, and completeness: linear_proof.rs.
module LinearVerifier {
  import opened Wrappers
  import opened Bits
  import opened Scalars
  import opened Vectors
  import opened Folding
  import opened InnerProduct
  import opened InnerProductVerifier
  import opened LinearProof

  // ----- subset products -----

  // With ones for the low half, setting the top bit of the index multiplies the entry
  // by that bit's challenge.
  lemma {:induction false} SubsetStep(ys: seq<Scalar>, i: nat)
    requires 0 < i < Pow2(|ys|)
    ensures 1 <= NumBits(i) <= |ys| && Pow2(NumBits(i) - 1) <= i
    ensures
      var lg := NumBits(i) - 1;
      var s := BitProducts(Ones(|ys|), ys);
      s[i] == Times(ys[|ys| - 1 - lg], s[i - Pow2(lg)])
  {
    var k := |ys|;
    TopBit(i, k);
    var lg := NumBits(i) - 1;
    assert Ones(k)[1..] == Ones(k - 1);
    var s := BitProducts(Ones(k - 1), ys[1..]);
    var half := Pow2(k - 1);
    TimesUnits(s[if i >= half then i - half else i]);
    if i >= half {
      assert lg == k - 1 by {
        if lg < k - 1 {
          Pow2Monotone(lg + 1, k - 1);
        }
      }
    } else {
      SubsetStep(ys[1..], i);
      assert ys[1..][k - 1 - 1 - lg] == ys[k - 1 - lg];
      TimesUnits(s[i - Pow2(lg)]);
    }
  }

  lemma {:induction false} SubsetProductsAre(us: seq<Scalar>, n: nat)
    requires 0 < n <= Pow2(|us|)
    ensures ClosedForm(Generator, us, n) == Reduced(BitProducts(Ones(|us|), us))[..n]
  {
    if n == 1 {
      SubsetFirst(us);
    } else {
      SubsetProductsAre(us, n - 1);
      SubsetExtends(us, n - 1, Reduced(BitProducts(Ones(|us|), us)));
    }
  }

  lemma SubsetExtends(us: seq<Scalar>, i: nat, r: seq<Scalar>)
    requires 0 < i < Pow2(|us|) && r == Reduced(BitProducts(Ones(|us|), us))
    requires ClosedForm(Generator, us, i) == r[..i]
    ensures ClosedForm(Generator, us, i + 1) == r[..i + 1]
  {
    SubsetEntry(us, i);
    assert r[..i + 1] == r[..i] + [r[i]];
  }

  lemma SubsetFirst(us: seq<Scalar>)
    ensures Reduced(BitProducts(Ones(|us|), us))[..1] == [Generator]
  {
    FirstBitProduct(Ones(|us|), us);
    OnesProduct(|us|);
  }

  lemma SubsetEntry(us: seq<Scalar>, i: nat)
    requires 0 < i < Pow2(|us|)
    ensures 1 <= NumBits(i) <= |us| && Pow2(NumBits(i) - 1) <= i
    ensures
      var lg := NumBits(i) - 1;
      var r := Reduced(BitProducts(Ones(|us|), us));
      r[i] == Mul(r[i - Pow2(lg)], us[|us| - 1 - lg])
  {
    SubsetStep(us, i);
    var lg := NumBits(i) - 1;
    var u := us[|us| - 1 - lg];
    var p := BitProducts(Ones(|us|), us)[i - Pow2(lg)];
    RedMul(Red(p), p, u, u);
    TimesCommutes(u, p);
  }

  lemma {:induction false} OnesProduct(k: nat)
    ensures ProductOf(Ones(k)) == 1
  {
    if k > 0 {
      OnesProduct(k - 1);
      assert Ones(k)[1..] == Ones(k - 1);
      TimesUnits(1);
    }
  }

  // s_i is the product of the challenges at the bits of i.
  method SubsetProduct(n: nat, us: seq<Scalar>) returns (s: seq<Scalar>)
    requires n == Pow2(|us|)
    ensures s == Reduced(BitProducts(Ones(|us|), us))
  {
    s := [Generator];
    for i := 1 to n
      invariant s == ClosedForm(Generator, us, i)
    {
      TopBit(i, |us|);
      var lg := NumBits(i) - 1;
      s := s + [Mul(s[i - Pow2(lg)], us[(|us| - 1) - lg])];
    }
    SubsetProductsAre(us, n);
    assert Reduced(BitProducts(Ones(|us|), us))[..n] == Reduced(BitProducts(Ones(|us|), us));
  }

  // The base the verifier computes is the one the rounds leave.
  lemma SubsetFoldsBase(us: seq<Scalar>, G: seq<Element>)
    requires |G| == Pow2(|us|)
    ensures Msm(ClosedForm(Generator, us, Pow2(|us|)), G) == FoldAll(G, Ones(|us|), us)
  {
    var s := BitProducts(Ones(|us|), us);
    SubsetProductsAre(us, Pow2(|us|));
    assert Reduced(s)[..Pow2(|us|)] == Reduced(s);
    ReducedSame(s);
    DotSame(Reduced(s), s, G, G);
    BitProductsFold(G, Ones(|us|), us);
  }

  // ----- soundness of the equation -----

  lemma {:induction false} CrossTermsSum(rounds: seq<Round>)
    ensures
      var us := Challenges(rounds);
      Dot(us, LeftsOf(rounds)) + Dot(EachInverse(us), RightsOf(rounds)) == LinearCrossSum(rounds)
  {
    var us := Challenges(rounds);
    var uis, l, r := EachInverse(us), LeftsOf(rounds), RightsOf(rounds);
    if |rounds| == 0 {
      DotEnds(us, l);
      DotEnds(uis, r);
      assert us[..0] == us && l[..0] == l && uis[..0] == uis && r[..0] == r;
    } else {
      CrossTermsSum(rounds[1..]);
      RoundsTail(rounds);
      HeadDot(us, l);
      HeadDot(uis, r);
      assert l[1..] == LeftsOf(rounds[1..]) && r[1..] == RightsOf(rounds[1..]);
    }
  }

  lemma DotThree(x: seq<int>, p: seq<int>)
    requires |x| == |p| == 3
    ensures Dot(x, p) == Times(x[0], p[0]) + Times(x[1], p[1]) + Times(x[2], p[2])
  {
    DotTwoMore([x[0]], [p[0]], x[1], p[1], x[2], p[2]);
    DotEnds([x[0]], [p[0]]);
    assert x == [x[0]] + [x[1]] + [x[2]] && p == [p[0]] + [p[1]] + [p[2]];
  }

  lemma DotFive(x: seq<int>, p: seq<int>)
    requires |x| == |p| == 5
    ensures Dot(x, p) == Times(x[0], p[0]) + Times(x[1], p[1]) + Times(x[2], p[2]) + Times(x[3], p[3]) + Times(x[4], p[4])
  {
    DotThree(x[..3], p[..3]);
    DotTwoMore(x[..3], p[..3], x[3], p[3], x[4], p[4]);
    assert x == x[..3] + [x[3]] + [x[4]] && p == p[..3] + [p[3]] + [p[4]];
  }

  lemma NegatedTimes(x: Scalar, P: int)
    ensures Red(Times(Neg(x), P)) == Red(0 - Times(x, P))
  {
    RedMul(Neg(x), 0 - x, P, P);
    TimesDistributes(P, 0, x);
    TimesUnits(P);
  }

  lemma SumOfFive(a: int, a': int, b: int, b': int, c: int, c': int, d: int, d': int, e: int, e': int)
    requires Red(a) == Red(a') && Red(b) == Red(b') && Red(c) == Red(c') && Red(d) == Red(d') && Red(e) == Red(e')
    ensures Red(a + b + c + d + e) == Red(a' + b' + c' + d' + e')
  {
    RedAdd(a, a', b, b');
    RedAdd(a + b, a' + b', c, c');
    RedAdd(a + b + c, a' + b' + c', d, d');
    RedAdd(a + b + c + d, a' + b' + c' + d', e, e');
  }

  // S + x (C + sum of u_j L_j + u_j^-1 R_j) == r B + a b_0 F + a G_0
  predicate LinearBalanced(rounds: seq<Round>, proof: LinearProof, x: Scalar, S: Element, C: Element, B: Element, F: Element, G0: Element, b0: Scalar) {
    Red(S + Times(x, C + LinearCrossSum(rounds))) == Red(Times(proof.r, B) + Times(Times(proof.a, b0), F) + Times(proof.a, G0))
  }

  // The equation of a proof: G_0 and b_0 are the base and the public vector folded round by round.
  predicate LinearBalances(proof: LinearProof, us: seq<Scalar>, x: Scalar, S: Element, C: Element, B: Element, F: Element, G: seq<Element>, b: seq<Scalar>)
    requires |proof.ls| == |proof.rs| == |us| && |G| == |b| == Pow2(|us|)
    requires AllDecode(proof.ls) && AllDecode(proof.rs)
  {
    LinearBalanced(RoundsOf(us, Decompressed(proof.ls), Decompressed(proof.rs)), proof, x, S, C, B, F,
                   FoldAll(G, Ones(|us|), us), FoldAll(b, Ones(|us|), us))
  }

  lemma LinearPointIsUnique(rounds: seq<Round>, proof: LinearProof, x: Scalar, S: Element, S': Element, C: Element, B: Element, F: Element, G0: Element, b0: Scalar)
    requires LinearBalanced(rounds, proof, x, S, C, B, F, G0, b0) && LinearBalanced(rounds, proof, x, S', C, B, F, G0, b0)
    ensures S == S'
  {
    var rest := Times(x, C + LinearCrossSum(rounds));
    RedAdd(S + rest, S' + rest, -rest, -rest);
  }

  lemma CrossPoint(us: seq<Scalar>, ls: seq<Element>, rs: seq<Element>)
    requires |us| == |ls| == |rs| && 0 !in us
    ensures Msm(us + Inverses(us), ls + rs) == Red(LinearCrossSum(RoundsOf(us, ls, rs)))
  {
    var rounds := RoundsOf(us, ls, rs);
    assert Challenges(rounds) == us && LeftsOf(rounds) == ls && RightsOf(rounds) == rs;
    InversesPair(us);
    DotConcat(us, Inverses(us), ls, rs);
    CrossTermsSum(rounds);
  }

  lemma ExpectedLinearAlgebra(r: Scalar, a: Scalar, b0: Scalar, x: Scalar, B: int, F: int, C: int, G0: int, sum: int)
    ensures
      var cross := Red(sum);
      Red(Red(Times(r, B) + Times(Mul(a, b0), F) + Times(Neg(x), C) + Times(Neg(x), cross) + Times(a, G0)) + Times(x, C + sum)) ==
      Red(Times(r, B) + Times(Times(a, b0), F) + Times(a, G0))
  {
    var cross := Red(sum);
    RedMul(Mul(a, b0), Times(a, b0), F, F);
    NegatedTimes(x, C);
    NegatedTimes(x, cross);
    RedMul(x, x, cross, sum);
    RedSub(0, 0, Times(x, cross), Times(x, sum));
    var point := Times(r, B) + Times(Mul(a, b0), F) + Times(Neg(x), C) + Times(Neg(x), cross) + Times(a, G0);
    SumOfFive(Times(r, B), Times(r, B), Times(Mul(a, b0), F), Times(Times(a, b0), F), Times(Neg(x), C), 0 - Times(x, C),
              Times(Neg(x), cross), 0 - Times(x, sum), Times(a, G0), Times(a, G0));
    TimesDistributes(x, C, sum);
    var claim := Times(r, B) + Times(Times(a, b0), F) + Times(a, G0);
    RedAdd(Red(point), claim - Times(x, C + sum), Times(x, C + sum), Times(x, C + sum));
  }

  lemma ExpectedLinearBalances(proof: LinearProof, us: seq<Scalar>, x: Scalar, C: Element, B: Element, F: Element, G: seq<Element>, b: seq<Scalar>)
    requires |proof.ls| == |proof.rs| == |us| && |G| == |b| == Pow2(|us|)
    requires AllDecode(proof.ls) && AllDecode(proof.rs) && 0 !in us
    ensures LinearBalances(proof, us, x, ExpectedS(proof, us, x, C, B, F, G, b), C, B, F, G, b)
  {
    SubsetFoldsBase(us, G);
    CrossPoint(us, Decompressed(proof.ls), Decompressed(proof.rs));
    FiveBalance(RoundsOf(us, Decompressed(proof.ls), Decompressed(proof.rs)), proof, x, C, B, F, FoldAll(G, Ones(|us|), us), FoldAll(b, Ones(|us|), us));
  }

  lemma FiveBalance(rounds: seq<Round>, proof: LinearProof, x: Scalar, C: Element, B: Element, F: Element, G0: Element, b0: Scalar)
    ensures
      var S := Msm([proof.r, Mul(proof.a, b0), Neg(x), Neg(x), proof.a], [B, F, C, Red(LinearCrossSum(rounds)), G0]);
      LinearBalanced(rounds, proof, x, S, C, B, F, G0, b0)
  {
    var sum := LinearCrossSum(rounds);
    DotFive([proof.r, Mul(proof.a, b0), Neg(x), Neg(x), proof.a], [B, F, C, Red(sum), G0]);
    ExpectedLinearAlgebra(proof.r, proof.a, b0, x, B, F, C, G0, sum);
  }

  // The point the verifier computes, and no other, balances the equation.
  lemma OnlyExpectedBalances(proof: LinearProof, us: seq<Scalar>, x: Scalar, S: Element, C: Element, B: Element, F: Element, G: seq<Element>, b: seq<Scalar>)
    requires |proof.ls| == |proof.rs| == |us| && |G| == |b| == Pow2(|us|)
    requires AllDecode(proof.ls) && AllDecode(proof.rs) && 0 !in us
    ensures ExpectedS(proof, us, x, C, B, F, G, b) == S <==> LinearBalances(proof, us, x, S, C, B, F, G, b)
  {
    ExpectedLinearBalances(proof, us, x, C, B, F, G, b);
    if LinearBalances(proof, us, x, S, C, B, F, G, b) {
      var rounds := RoundsOf(us, Decompressed(proof.ls), Decompressed(proof.rs));
      LinearPointIsUnique(rounds, proof, x, S, ExpectedS(proof, us, x, C, B, F, G, b), C, B, F,
                          FoldAll(G, Ones(|us|), us), FoldAll(b, Ones(|us|), us));
    }
  }

  // ----- the transcript binds what was read -----

  // A statement and proof whose challenges can be drawn.
  predicate LinearReadable(o: Oracle, start: Log, proof: LinearProof, C: Encoding, B: Element, F: Element, G: seq<Element>, b: seq<Scalar>)
    requires |proof.ls| == |proof.rs|
  {
    && |G| == |b| == Pow2(|proof.ls|) && |proof.ls| < 32
    && ReadTerms(o, Opening(start, C, B, F, G, b), proof.ls, proof.rs).Some?
  }

  // The challenges of a readable proof, and the transcript after S.
  function LinearReading(o: Oracle, start: Log, proof: LinearProof, C: Encoding, B: Element, F: Element, G: seq<Element>, b: seq<Scalar>): (r: (seq<Scalar>, Log))
    requires |proof.ls| == |proof.rs| && LinearReadable(o, start, proof, C, B, F, G, b)
    ensures |r.0| == |proof.ls|
  {
    TermsEach(o, Opening(start, C, B, F, G, b), proof.ls, proof.rs);
    var (us, log) := ReadTerms(o, Opening(start, C, B, F, G, b), proof.ls, proof.rs).value;
    (us, log + [Append("S", proof.S), Drawn("x_star")])
  }

  lemma {:induction false} TermsEach(o: Oracle, log: Log, ls: seq<Encoding>, rs: seq<Encoding>)
    requires |ls| == |rs|
    ensures var read := ReadTerms(o, log, ls, rs); read.Some? ==> |read.value.0| == |ls|
    decreases |ls|
  {
    if |ls| > 0 {
      TermsEach(o, SentTerms(log, ls[0], rs[0]), ls[1..], rs[1..]);
    }
  }

  lemma {:induction false} TermsExtend(o: Oracle, log: Log, ls: seq<Encoding>, rs: seq<Encoding>)
    requires |ls| == |rs| && ReadTerms(o, log, ls, rs).Some?
    ensures var end := ReadTerms(o, log, ls, rs).value.1; |end| == |log| + 3 * |ls| && end[..|log|] == log
    decreases |ls|
  {
    if |ls| > 0 {
      var log' := SentTerms(log, ls[0], rs[0]);
      TermsExtend(o, log', ls[1..], rs[1..]);
      var end := ReadTerms(o, log, ls, rs).value.1;
      assert end[..|log|] == end[..|log'|][..|log|] == log'[..|log|];
    }
  }

  lemma {:induction false} TermsBind(o: Oracle, o': Oracle, log: Log, log': Log, ls: seq<Encoding>, rs: seq<Encoding>, ls': seq<Encoding>, rs': seq<Encoding>)
    requires |ls| == |rs| == |ls'| == |rs'| && |log| == |log'|
    requires ReadTerms(o, log, ls, rs).Some? && ReadTerms(o', log', ls', rs').Some?
    requires ReadTerms(o, log, ls, rs).value.1 == ReadTerms(o', log', ls', rs').value.1
    ensures log == log' && ls == ls' && rs == rs'
    decreases |ls|
  {
    if |ls| > 0 {
      var next, next' := SentTerms(log, ls[0], rs[0]), SentTerms(log', ls'[0], rs'[0]);
      TermsBind(o, o', next, next', ls[1..], rs[1..], ls'[1..], rs'[1..]);
      assert next[..|log|] == log && next'[..|log|] == log';
      assert next[|log|] == next'[|log|] && next[|log| + 1] == next'[|log| + 1];
      assert ls == [ls[0]] + ls[1..] && ls' == [ls'[0]] + ls'[1..];
      assert rs == [rs[0]] + rs[1..] && rs' == [rs'[0]] + rs'[1..];
    }
  }

  lemma OpeningBinds(start: Log, C: Encoding, B: Element, F: Element, G: seq<Element>, b: seq<Scalar>, C': Encoding, B': Element, F': Element, G': seq<Element>, b': seq<Scalar>)
    requires |G| == |b| == |G'| == |b'| && Opening(start, C, B, F, G, b) == Opening(start, C', B', F', G', b')
    ensures C == C' && B == B' && F == F' && G == G' && b == b'
  {
    var log, log' := Opening(start, C, B, F, G, b), Opening(start, C', B', F', G', b');
    var n, k := |start|, |b|;
    OpeningAt(start, C, B, F, G, b);
    OpeningAt(start, C', B', F', G', b');
    forall i | 0 <= i < k
      ensures b[i] == b'[i] && G[i] == G'[i]
    {
      OpeningEntry(start, C, B, F, G, b, i);
      OpeningEntry(start, C', B', F', G', b', i);
    }
    assert log[n + 1] == log'[n + 1] && log[n + 2 + 2 * k] == log'[n + 2 + 2 * k] && log[n + 3 + 2 * k] == log'[n + 3 + 2 * k];
  }

  lemma OpeningEntry(start: Log, C: Encoding, B: Element, F: Element, G: seq<Element>, b: seq<Scalar>, i: nat)
    requires i < |G| == |b|
    ensures
      var log, n, k := Opening(start, C, B, F, G, b), |start|, |b|;
      && |log| == n + 2 * k + 4
      && log[n + 2 + i] == AppendScalar("b_i", b[i]) && log[n + 2 + k + i] == Append("G_i", Encoded(G[i]))
  {
  }

  // The length of the opening and its entries other than the vectors'.
  lemma OpeningAt(start: Log, C: Encoding, B: Element, F: Element, G: seq<Element>, b: seq<Scalar>)
    requires |G| == |b|
    ensures
      var log, n, k := Opening(start, C, B, F, G, b), |start|, |b|;
      && |log| == n + 2 * k + 4 && log[n] == DomainSeparator(k) && log[n + 1] == Append("C", C)
      && log[n + 2 + 2 * k] == Append("F", Encoded(F)) && log[n + 3 + 2 * k] == Append("B", Encoded(B))
  {
  }

  // Two readings from one transcript that end in one transcript are of the same
  // commitment, bases, public vector, cross terms and last message, whatever the oracles.
  lemma LinearReadingBinds(o: Oracle, o': Oracle, start: Log, proof: LinearProof, C: Encoding, B: Element, F: Element, G: seq<Element>, b: seq<Scalar>,
                           proof': LinearProof, C': Encoding, B': Element, F': Element, G': seq<Element>, b': seq<Scalar>)
    requires |proof.ls| == |proof.rs| && |proof'.ls| == |proof'.rs|
    requires LinearReadable(o, start, proof, C, B, F, G, b) && LinearReadable(o', start, proof', C', B', F', G', b')
    requires LinearReading(o, start, proof, C, B, F, G, b).1 == LinearReading(o', start, proof', C', B', F', G', b').1
    ensures C == C' && B == B' && F == F' && G == G' && b == b'
    ensures proof.ls == proof'.ls && proof.rs == proof'.rs && proof.S == proof'.S
  {
    var log, log' := Opening(start, C, B, F, G, b), Opening(start, C', B', F', G', b');
    var end, end' := ReadTerms(o, log, proof.ls, proof.rs).value.1, ReadTerms(o', log', proof'.ls, proof'.rs).value.1;
    SameBeforeS(end, end', proof.S, proof'.S);
    OpeningAt(start, C, B, F, G, b);
    OpeningAt(start, C', B', F', G', b');
    TermsExtend(o, log, proof.ls, proof.rs);
    TermsExtend(o', log', proof'.ls, proof'.rs);
    assert end[..|log|][|start|] == end'[..|log'|][|start|];
    TermsBind(o, o', log, log', proof.ls, proof.rs, proof'.ls, proof'.rs);
    OpeningBinds(start, C, B, F, G, b, C', B', F', G', b');
  }

  lemma SameBeforeS(log: Log, log': Log, S: Encoding, S': Encoding)
    requires log + [Append("S", S), Drawn("x_star")] == log' + [Append("S", S'), Drawn("x_star")]
    ensures log == log' && S == S'
  {
    var all, all' := log + [Append("S", S), Drawn("x_star")], log' + [Append("S", S'), Drawn("x_star")];
    assert |all| == |log| + 2 && |all'| == |log'| + 2;
    assert all[..|log|] == log && all'[..|log|] == log' && all[|log|] == all'[|log|];
  }

  // ----- the verifier as a program -----

  lemma FoldEntryOnto(l: Scalar, y: Scalar, r: Scalar)
    ensures Add(l, Mul(y, r)) == Red(Times(1, l) + Times(y, r))
  {
    TimesUnits(l);
    RedAdd(l, l, Mul(y, r), Times(y, r));
  }

  // The first m entries gain y times the next m.
  method FoldOnto(v: array<Scalar>, m: nat, y: Scalar)
    requires 2 * m <= v.Length
    modifies v
    ensures v[..m] == Fold(old(v[..2 * m]), 1, y)
  {
    ghost var was := v[..2 * m];
    ghost var folded := Fold(was, 1, y);
    for i := 0 to m
      invariant forall j :: 0 <= j < i ==> v[j] == folded[j]
      invariant forall j :: i <= j < 2 * m ==> v[j] == was[j]
    {
      FoldEntryOnto(v[i], y, v[m + i]);
      v[i] := Add(v[i], Mul(y, v[m + i]));
    }
  }

  // What reading the terms gives, once us have been drawn and log reached.
  function ReadMore(o: Oracle, log: Log, us: seq<Scalar>, proof: LinearProof): Option<(seq<Scalar>, Log)>
    requires |us| <= |proof.ls| == |proof.rs|
  {
    match ReadTerms(o, log, proof.ls[|us|..], proof.rs[|us|..])
    case None => None
    case Some((rest, end)) => Some((us + rest, end))
  }

  lemma ReadStart(o: Oracle, log: Log, proof: LinearProof)
    requires |proof.ls| == |proof.rs|
    ensures ReadMore(o, log, [], proof) == ReadTerms(o, log, proof.ls, proof.rs)
  {
    assert proof.ls[0..] == proof.ls && proof.rs[0..] == proof.rs;
    if ReadTerms(o, log, proof.ls, proof.rs).Some? {
      var us := ReadTerms(o, log, proof.ls, proof.rs).value.0;
      assert [] + us == us;
    }
  }

  lemma ReadStep(o: Oracle, log: Log, us: seq<Scalar>, proof: LinearProof)
    requires |us| < |proof.ls| == |proof.rs|
    ensures
      var j := |us|;
      var log' := SentTerms(log, proof.ls[j], proof.rs[j]);
      ReadMore(o, log, us, proof) ==
        if proof.ls[j] == Encoded(Identity) || proof.rs[j] == Encoded(Identity) then None
        else ReadMore(o, log', us + [o(log')], proof)
  {
    var j := |us|;
    var ls, rs := proof.ls[j..], proof.rs[j..];
    assert ls[1..] == proof.ls[j + 1..] && rs[1..] == proof.rs[j + 1..];
    assert ls[0] == proof.ls[j] && rs[0] == proof.rs[j];
    var log' := SentTerms(log, ls[0], rs[0]);
    var rest := ReadTerms(o, log', ls[1..], rs[1..]);
    if rest.Some? {
      assert us + ([o(log')] + rest.value.0) == us + [o(log')] + rest.value.0;
    }
  }

  lemma ReadEnd(o: Oracle, log: Log, us: seq<Scalar>, proof: LinearProof)
    requires |us| == |proof.ls| == |proof.rs|
    ensures ReadMore(o, log, us, proof) == Some((us, log))
  {
    assert us + [] == us;
  }

  // Folding by more challenges: the last one folds what the others leave.
  function FoldSome(v: seq<Element>, us: seq<Scalar>, k: nat): (r: seq<Element>)
    requires |v| == Pow2(k) && |us| <= k
    ensures |r| == Pow2(k - |us|)
  {
    if |us| == 0 then v else Fold(FoldSome(v, us[..|us| - 1], k), 1, us[|us| - 1])
  }

  lemma {:induction false} FoldFirst(v: seq<Element>, us: seq<Scalar>, k: nat)
    requires |v| == Pow2(k) && 0 < |us| <= k
    ensures FoldSome(v, us, k) == FoldSome(Fold(v, 1, us[0]), us[1..], k - 1)
    decreases |us|
  {
    var n := |us| - 1;
    assert us[..n][..0] == [];
    if n > 0 {
      FoldFirst(v, us[..n], k);
      assert us[..n][1..] == us[1..][..n - 1] && us[..n][0] == us[0];
    }
  }

  lemma {:induction false} FoldSomeIsAll(v: seq<Element>, us: seq<Scalar>)
    requires |v| == Pow2(|us|)
    ensures FoldSome(v, us, |us|) == [FoldAll(v, Ones(|us|), us)]
    decreases |us|
  {
    if |us| > 0 {
      FoldFirst(v, us, |us|);
      FoldSomeIsAll(Fold(v, 1, us[0]), us[1..]);
      assert Ones(|us|)[1..] == Ones(|us| - 1);
    } else {
      assert v == [v[0]];
    }
  }

  // Draws the challenges and folds the public vector down to b_0 on the way.
  method LinearScalars(o: Oracle, start: Log, proof: LinearProof, n: nat, b: array<Scalar>)
    returns (r: Result<(seq<Scalar>, seq<Scalar>, Scalar), ProofError>, log: Log)
    requires |proof.ls| == |proof.rs| && b.Length == n
    modifies b
    ensures r.Ok? <==> |proof.ls| < 32 && n == Pow2(|proof.ls|) && ReadTerms(o, start, proof.ls, proof.rs).Some?
    ensures r.Err? ==> r.error == VerificationError
    ensures r.Ok? ==>
      var (us, end) := ReadTerms(o, start, proof.ls, proof.rs).value;
      && log == end && |us| == |proof.ls|
      && r.value == (us, Inverses(us), FoldAll(old(b[..]), Ones(|us|), us))
  {
    var k := |proof.ls|;
    log := start;
    if k >= 32 || n != Pow2(k) {
      return Err(VerificationError), log;
    }
    ghost var all := ReadTerms(o, log, proof.ls, proof.rs);
    ghost var was := b[..];
    var us: seq<Scalar> := [];
    var m := n;
    ReadStart(o, log, proof);
    for j := 0 to k
      invariant |us| == j && m == Pow2(k - j) <= b.Length
      invariant all == ReadMore(o, log, us, proof)
      invariant b[..m] == FoldSome(was, us, k)
    {
      ReadStep(o, log, us, proof);
      if proof.ls[j] == Encoded(Identity) || proof.rs[j] == Encoded(Identity) {
        return Err(VerificationError), log;
      }
      log := SentTerms(log, proof.ls[j], proof.rs[j]);
      var x := o(log);
      m := m / 2;
      FoldOnto(b, m, x);
      us := us + [x];
      assert us[..j] == us[..|us| - 1];
    }
    ReadEnd(o, log, us, proof);
    FoldSomeIsAll(was, us);
    assert b[0] == b[..m][0];
    r := Ok((us, Inverses(us), b[0]));
  }

  // Everything a proof names decodes.
  predicate LinearDecodes(proof: LinearProof, C: Encoding) {
    AllDecode(proof.ls) && AllDecode(proof.rs) && proof.S.Encoded? && C.Encoded?
  }

  // Whoever made the proof, a readable one with nonzero challenges verifies exactly when
  // its folded equation balances.
  method VerifyLinear(o: Oracle, start: Log, proof: LinearProof, C: Encoding, G: seq<Element>, F: Element, B: Element, b: array<Scalar>)
    returns (r: Result<(), ProofError>, log: Log)
    requires |proof.ls| == |proof.rs|
    modifies b
    ensures r.Ok? <==> LinearAccepts(o, start, proof, C, B, F, G, old(b[..]))
    ensures r == Err(InvalidGeneratorsLength) <==> |G| != b.Length
    ensures r.Ok? ==>
      && LinearReadable(o, start, proof, C, B, F, G, old(b[..])) && LinearDecodes(proof, C)
      && log == LinearReading(o, start, proof, C, B, F, G, old(b[..])).1
    ensures LinearReadable(o, start, proof, C, B, F, G, old(b[..])) && LinearDecodes(proof, C) ==>
      var (us, end) := LinearReading(o, start, proof, C, B, F, G, old(b[..]));
      0 !in us ==> (r.Ok? <==> LinearBalances(proof, us, o(end), proof.S.point, C.point, B, F, G, old(b[..])))
  {
    var n := b.Length;
    log := start;
    if |G| != n {
      return Err(InvalidGeneratorsLength), log;
    }
    ghost var public := b[..];
    var scalars;
    scalars, log := LinearScalars(o, Opening(start, C, B, F, G, b[..]), proof, n, b);
    if scalars.Err? {
      return Err(VerificationError), log;
    }
    var (us, inverses, b0) := scalars.value;
    log := log + [Append("S", proof.S), Drawn("x_star")];
    var x := o(log);
    if !LinearDecodes(proof, C) {
      return Err(VerificationError), log;
    }
    if 0 !in us {
      OnlyExpectedBalances(proof, us, x, proof.S.point, C.point, B, F, G, public);
    }
    var cross := Msm(us + inverses, Decompressed(proof.ls) + Decompressed(proof.rs));
    var s := SubsetProduct(n, us);
    SubsetProductsAre(us, n);
    assert Reduced(BitProducts(Ones(|us|), us))[..n] == s;
    var G0 := Msm(s, G);
    var expected := Msm([proof.r, Mul(proof.a, b0), Neg(x), Neg(x), proof.a], [B, F, C.point, cross, G0]);
    r := if expected == proof.S.point then Ok(()) else Err(VerificationError);
  }
}
