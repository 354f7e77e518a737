// The optimised inner-product prover: inner_product_proof.rs.
//
// `Create` keeps the original generators for the first rounds, scaling one coefficient
// per generator, then collapses them once and folds what is left. Its proof is the one
// the plain protocol of InnerProduct.dfy gives, whatever the challenges.
module InnerProductProver {
  import opened Bits
  import opened Scalars
  import opened Vectors
  import opened Folding
  import opened InnerProduct
  import opened InnerProductVerifier
  import opened EffectiveBases

  // ----- in-place steps shared by both phases -----

  lemma FoldEntry(x: Scalar, l: Scalar, y: Scalar, r: Scalar)
    ensures Add(Mul(l, x), Mul(y, r)) == Red(Times(x, l) + Times(y, r))
  {
    TimesCommutes(l, x);
    RedAdd(Mul(l, x), Times(x, l), Mul(y, r), Times(y, r));
  }

  // The first m entries become x times themselves plus y times the next m.
  method FoldInPlace(v: array<Scalar>, m: nat, x: Scalar, y: Scalar)
    requires 2 * m <= v.Length
    modifies v
    ensures v[..m] == Fold(old(v[..2 * m]), x, y)
  {
    ghost var was := v[..2 * m];
    ghost var folded := Fold(was, x, y);
    for i := 0 to m
      invariant forall j :: 0 <= j < i ==> v[j] == folded[j]
      invariant forall j :: i <= j < 2 * m ==> v[j] == was[j]
    {
      FoldEntry(x, v[i], y, v[m + i]);
      v[i] := Add(Mul(v[i], x), Mul(y, v[m + i]));
    }
  }

  // Every coefficient times lo or hi, by the half its index lies in.
  method RescaleInPlace(coef: array<Scalar>, m: nat, lo: Scalar, hi: Scalar)
    requires m > 0
    modifies coef
    ensures Rescaled(old(coef[..]), coef[..], m, lo, hi)
  {
    for j := 0 to coef.Length
      invariant forall i :: 0 <= i < j ==> coef[i] == Mul(old(coef[i]), if InHigh(i, m) then hi else lo)
      invariant forall i :: j <= i < coef.Length ==> coef[i] == old(coef[i])
    {
      IndexBits(j, m);
      coef[j] := Mul(coef[j], if j / m % 2 == 1 then hi else lo);
    }
  }

  // ----- rounds over the original generators -----

  datatype Generators = Generators(Q: Element, G: seq<Element>, H: seq<Element>)

  // Coefficients and vectors with len entries left fit the generators.
  predicate Fitting(gens: Generators, g: seq<Scalar>, h: seq<Scalar>, len: nat) {
    |g| == |h| == |gens.G| == |gens.H| > 0 && Blocks(|g|, len)
  }

  // The plain protocol's view of the state: bases collapsed to the vectors' length.
  function Standing(gens: Generators, g: seq<Scalar>, h: seq<Scalar>, a: seq<Scalar>, b: seq<Scalar>): (x: Instance)
    requires Fitting(gens, g, h, |a|) && |a| == |b|
    ensures Sized(x, |a|)
  {
    Instance(gens.Q, Reduced(Effective(g, gens.G, |a|)), Reduced(Effective(h, gens.H, |a|)), a, b)
  }

  lemma StandingFolds(gens: Generators, g: seq<Scalar>, h: seq<Scalar>, g': seq<Scalar>, h': seq<Scalar>, a: seq<Scalar>, b: seq<Scalar>, u: Scalar)
    requires Fitting(gens, g, h, |a|) && |a| == |b| && |a| % 2 == 0
    requires Rescaled(g, g', |a| / 2, Inverse(u), u) && Rescaled(h, h', |a| / 2, u, Inverse(u))
    ensures Fitting(gens, g', h', |a| / 2)
    ensures Standing(gens, g', h', Fold(a, u, Inverse(u)), Fold(b, Inverse(u), u)) == Folded(Standing(gens, g, h, a, b), u)
  {
    EffectiveFolds(g, g', gens.G, |a| / 2, Inverse(u), u);
    EffectiveFolds(h, h', gens.H, |a| / 2, u, Inverse(u));
    FoldReduced(Effective(g, gens.G, |a|), Effective(g', gens.G, |a| / 2), Inverse(u), u);
    FoldReduced(Effective(h, gens.H, |a|), Effective(h', gens.H, |a| / 2), u, Inverse(u));
  }

  lemma FoldReduced(e: seq<int>, e': seq<int>, x: Scalar, y: Scalar)
    requires |e| % 2 == 0 && FoldsTo(e, e', x, y)
    ensures Reduced(e') == Fold(Reduced(e), x, y)
  {
    var m := |e| / 2;
    forall i | 0 <= i < m
      ensures Reduced(e')[i] == Fold(Reduced(e), x, y)[i]
    {
      assert Red(e'[i]) == Red(Plus(Scale(x, Low(e)), Scale(y, High(e)))[i]);
      CombineHalves(x, y, Reduced(e)[i], e[i], Reduced(e)[m + i], e[m + i]);
    }
  }

  // One cross term over all the generators is the one over the effective bases.
  lemma CrossOverGenerators(m: nat, hi: Side, lo: Side, c: int, Q: Element)
    requires hi.Fits(m) && lo.Fits(m) && |hi.points| == |lo.points|
    ensures
      Msm(MixedScalars(m, hi, lo) + [Red(c)], MixedPoints(m, hi, lo) + [Q]) ==
      Red(Dot(hi.v, High(Reduced(Effective(hi.coef, hi.points, 2 * m))))
        + Dot(lo.v, Low(Reduced(Effective(lo.coef, lo.points, 2 * m)))) + Times(c, Q))
  {
    var eh, el := Effective(hi.coef, hi.points, 2 * m), Effective(lo.coef, lo.points, 2 * m);
    var scalars, points := MixedScalars(m, hi, lo), MixedPoints(m, hi, lo);
    MixedDot(m, hi, lo);
    DotConcat(scalars, [Red(c)], points, [Q]);
    DotEnds([Red(c)], [Q]);
    DotSame(hi.v, hi.v, High(Reduced(eh)), High(eh));
    DotSame(lo.v, lo.v, Low(Reduced(el)), Low(el));
    CrossSums(Dot(scalars, points), Dot(hi.v, High(eh)), Dot(hi.v, High(Reduced(eh))), Dot(lo.v, Low(el)), Dot(lo.v, Low(Reduced(el))), c, Q);
  }

  lemma CrossSums(sum: int, x: int, x': int, y: int, y': int, c: int, Q: int)
    requires Red(sum) == Red(x + y) && Red(x) == Red(x') && Red(y) == Red(y')
    ensures Red(sum + Times(Red(c), Q)) == Red(x' + y' + Times(c, Q))
  {
    ReducedTerm(sum, c, Q);
    RedAdd(x, x', y, y');
    RedAdd(sum, x' + y', Times(c, Q), Times(c, Q));
  }

  // The two multiplications' inputs, one generator pair at a time.
  method GatherCrossTerms(m: nat, hiL: Side, loL: Side, hiR: Side, loR: Side)
    returns (scalarsL: seq<Scalar>, pointsL: seq<Element>, scalarsR: seq<Scalar>, pointsR: seq<Element>)
    requires hiL.Fits(m) && loL.Fits(m) && hiR.Fits(m) && loR.Fits(m)
    requires |hiL.points| == |loL.points| == |hiR.points| == |loR.points|
    ensures scalarsL == MixedScalars(m, hiL, loL) && pointsL == MixedPoints(m, hiL, loL)
    ensures scalarsR == MixedScalars(m, hiR, loR) && pointsR == MixedPoints(m, hiR, loR)
  {
    scalarsL, pointsL, scalarsR, pointsR := [], [], [], [];
    for j := 0 to |hiL.points|
      invariant scalarsL == MixedScalars(m, hiL, loL)[..j] && pointsL == MixedPoints(m, hiL, loL)[..j]
      invariant scalarsR == MixedScalars(m, hiR, loR)[..j] && pointsR == MixedPoints(m, hiR, loR)[..j]
    {
      IndexBits(j, m);
      var idx := j % m;
      if j / m % 2 == 1 {
        scalarsL := scalarsL + [Mul(hiL.v[idx], hiL.coef[j])];
        pointsL := pointsL + [hiL.points[j]];
        scalarsR := scalarsR + [Mul(hiR.v[idx], hiR.coef[j])];
        pointsR := pointsR + [hiR.points[j]];
      } else {
        scalarsR := scalarsR + [Mul(loR.v[idx], loR.coef[j])];
        pointsR := pointsR + [loR.points[j]];
        scalarsL := scalarsL + [Mul(loL.v[idx], loL.coef[j])];
        pointsL := pointsL + [loL.points[j]];
      }
    }
  }

  method OriginalCrossTerms(gens: Generators, g: seq<Scalar>, h: seq<Scalar>, a: seq<Scalar>, b: seq<Scalar>) returns (l: Element, r: Element)
    requires Fitting(gens, g, h, |a|) && |a| == |b| && |a| % 2 == 0
    ensures l == LeftPoint(Standing(gens, g, h, a, b)) && r == RightPoint(Standing(gens, g, h, a, b))
  {
    var m := |a| / 2;
    var cl := ScalarProduct(Low(a), High(b));
    var cr := ScalarProduct(High(a), Low(b));
    var gl, hl := Side(Low(a), g, gens.G), Side(High(b), h, gens.H);
    var hr, gr := Side(Low(b), h, gens.H), Side(High(a), g, gens.G);
    var scalarsL, pointsL, scalarsR, pointsR := GatherCrossTerms(m, gl, hl, hr, gr);
    l := Msm(scalarsL + [cl], pointsL + [gens.Q]);
    r := Msm(scalarsR + [cr], pointsR + [gens.Q]);
    CrossOverGenerators(m, gl, hl, Dot(Low(a), High(b)), gens.Q);
    CrossOverGenerators(m, hr, gr, Dot(High(a), Low(b)), gens.Q);
    CrossPoints(Standing(gens, g, h, a, b));
    assert Dot(hr.v, High(Reduced(Effective(h, gens.H, |a|)))) + Dot(gr.v, Low(Reduced(Effective(g, gens.G, |a|)))) ==
      Dot(gr.v, Low(Reduced(Effective(g, gens.G, |a|)))) + Dot(hr.v, High(Reduced(Effective(h, gens.H, |a|))));
  }

  // ----- the proof under construction -----

  // What has been sent so far, and the plain instance still to be proved.
  datatype Progress = Progress(log: Log, x: Instance, k: nat, ls: seq<Encoding>, rs: seq<Encoding>) {
    predicate Valid() {
      Sized(x, Pow2(k))
    }

    function Next(o: Oracle): (p: Progress)
      requires Valid() && k > 0
      ensures p.Valid()
    {
      var round := FirstRound(o, log, x);
      Progress(Sent(log, round.l, round.r), Folded(x, round.u), k - 1, ls + [Encoded(round.l)], rs + [Encoded(round.r)])
    }

    // The proof it ends in. Folded, so that the verifier does not run the protocol.
    function FoldedEnd(o: Oracle, n: nat): Proof
      requires Valid()
      decreases n
    {
      if n == 0 then Continued(ls, rs, Prove(o, log, x, k)) else FoldedEnd(o, n - 1)
    }

    function End(o: Oracle): Proof
      requires Valid()
    {
      FoldedEnd(o, q)
    }

    lemma UnfoldEnd(o: Oracle, n: nat)
      requires Valid()
      ensures FoldedEnd(o, n) == Continued(ls, rs, Prove(o, log, x, k))
      decreases n
    {
    }

    lemma EndFromStart(o: Oracle)
      requires Valid() && ls == rs == []
      ensures End(o) == ProofOf(Prove(o, log, x, k))
    {
      UnfoldEnd(o, q);
      var run := Prove(o, log, x, k);
      assert [] + ProofOf(run).ls == ProofOf(run).ls && [] + ProofOf(run).rs == ProofOf(run).rs;
    }

    lemma EndAfterRound(o: Oracle)
      requires Valid() && k > 0
      ensures End(o) == Next(o).End(o)
    {
      UnfoldEnd(o, q);
      Next(o).UnfoldEnd(o, q);
      var round := FirstRound(o, log, x);
      ContinuedStep(round, Prove(o, Sent(log, round.l, round.r), Folded(x, round.u), k - 1), ls, rs);
    }

    lemma EndAtLast(o: Oracle)
      requires Valid() && k == 0
      ensures End(o) == Proof(ls, rs, x.a[0], x.b[0])
    {
      UnfoldEnd(o, q);
    }
  }

  function Continued(ls: seq<Encoding>, rs: seq<Encoding>, run: Run): Proof {
    Proof(ls + ProofOf(run).ls, rs + ProofOf(run).rs, run.a, run.b)
  }

  lemma ContinuedStep(round: Round, rest: Run, ls: seq<Encoding>, rs: seq<Encoding>)
    ensures Continued(ls, rs, rest.(rounds := [round] + rest.rounds)) ==
      Continued(ls + [Encoded(round.l)], rs + [Encoded(round.r)], rest)
  {
    var run := rest.(rounds := [round] + rest.rounds);
    assert ProofOf(run).ls == [Encoded(round.l)] + ProofOf(rest).ls;
    assert ProofOf(run).rs == [Encoded(round.r)] + ProofOf(rest).rs;
  }

  // ----- the folded tail -----

  method FoldBases(v: seq<Element>, x: Scalar, y: Scalar) returns (r: seq<Element>)
    requires |v| % 2 == 0
    ensures r == Fold(v, x, y)
  {
    var m := |v| / 2;
    r := [];
    for i := 0 to m
      invariant r == Fold(v, x, y)[..i]
    {
      DotPair(x, y, v[i], v[m + i]);
      r := r + [Msm([x, y], [v[i], v[m + i]])];
    }
  }

  lemma DotPair(x: int, y: int, p: int, r: int)
    ensures Dot([x, y], [p, r]) == Times(x, p) + Times(y, r)
  {
    DotConcat([x], [y], [p], [r]);
    DotEnds([x], [p]);
    DotEnds([y], [r]);
    assert [x] + [y] == [x, y] && [p] + [r] == [p, r];
  }

  // The cross terms of one tail round.
  method TailTerms(Q: Element, a: seq<Scalar>, b: seq<Scalar>, G: seq<Element>, H: seq<Element>) returns (l: Element, r: Element)
    requires |G| == |H| == |a| == |b| && |a| % 2 == 0
    ensures l == LeftPoint(Instance(Q, G, H, a, b)) && r == RightPoint(Instance(Q, G, H, a, b))
  {
    var m := |a| / 2;
    var aL, aR, bL, bR := a[..m], a[m..], b[..m], b[m..];
    var cl := ScalarProduct(aL, bR);
    var cr := ScalarProduct(aR, bL);
    l := Msm(aL + bR + [cl], G[m..] + H[..m] + [Q]);
    r := Msm(aR + bL + [cr], G[..m] + H[m..] + [Q]);
  }

  // One round of the tail; the bases are not folded once a single entry is left.
  method TailRound(o: Oracle, log: Log, Q: Element, a: array<Scalar>, b: array<Scalar>, G: seq<Element>, H: seq<Element>)
    returns (l: Element, r: Element, G': seq<Element>, H': seq<Element>)
    requires a != b && |G| == |H| <= a.Length && |G| <= b.Length && |G| % 2 == 0
    modifies a, b
    ensures
      var x := Instance(Q, G, H, old(a[..|G|]), old(b[..|G|]));
      var round := FirstRound(o, log, x);
      var x' := Folded(x, round.u);
      && l == round.l && r == round.r
      && a[..|G| / 2] == x'.a && b[..|G| / 2] == x'.b
      && (|G| > 2 ==> G' == x'.G && H' == x'.H)
  {
    var n := |G|;
    var m := n / 2;
    l, r := TailTerms(Q, a[..n], b[..n], G, H);
    var u := o(Sent(log, l, r));
    var ui := Inverse(u);
    FoldInPlace(a, m, u, ui);
    FoldInPlace(b, m, ui, u);
    G', H' := G, H;
    if m > 1 {
      G' := FoldBases(G, ui, u);
      H' := FoldBases(H, u, ui);
    }
  }

  // The proof once G and H are bases in their own right.
  method CreateFoldedTail(o: Oracle, start: Log, Q: Element, a: array<Scalar>, b: array<Scalar>, G0: seq<Element>, H0: seq<Element>, ls0: seq<Encoding>, rs0: seq<Encoding>, ghost k: nat)
    returns (proof: Proof)
    requires a != b && |G0| == |H0| == Pow2(k) <= a.Length && |G0| <= b.Length
    modifies a, b
    ensures proof == Progress(start, Instance(Q, G0, H0, old(a[..|G0|]), old(b[..|G0|])), k, ls0, rs0).End(o)
  {
    var n, G, H, ls, rs, log := |G0|, G0, H0, ls0, rs0, start;
    ghost var p := Progress(log, Instance(Q, G, H, a[..n], b[..n]), k, ls, rs);
    ghost var end := p.End(o);
    while n > 1
      invariant p.Valid() && p.log == log && p.ls == ls && p.rs == rs && end == p.End(o)
      invariant n == Pow2(p.k) && n <= a.Length && n <= b.Length
      invariant p.x.Q == Q && p.x.a == a[..n] && p.x.b == b[..n]
      invariant n > 1 ==> G == p.x.G && H == p.x.H
    {
      p.EndAfterRound(o);
      p := p.Next(o);
      var l, r;
      l, r, G, H := TailRound(o, log, Q, a, b, G, H);
      log := Sent(log, l, r);
      ls, rs := ls + [Encoded(l)], rs + [Encoded(r)];
      n := n / 2;
    }
    p.EndAtLast(o);
    proof := Proof(ls, rs, a[0], b[0]);
  }

  // ----- the whole prover -----

  const ORIGINAL_BASE_ROUNDS: nat := 8

  // The coefficients and vectors, rewritten in place every round.
  datatype Work = Work(gens: Generators, g: array<Scalar>, h: array<Scalar>, a: array<Scalar>, b: array<Scalar>) {
    ghost predicate Valid(len: nat)
      reads g, h
    {
      && g != h && g != a && g != b && h != a && h != b && a != b
      && Fitting(gens, g[..], h[..], len) && len <= a.Length && len <= b.Length
    }

    // The plain instance this state stands for.
    ghost function View(len: nat): (x: Instance)
      requires Valid(len)
      reads g, h, a, b
      ensures Sized(x, len)
    {
      Standing(gens, g[..], h[..], a[..len], b[..len])
    }

    // One round over the original generators.
    method OriginalRound(o: Oracle, start: Log, len: nat) returns (l: Element, r: Element)
      requires Valid(len) && len % 2 == 0
      modifies g, h, a, b
      ensures Valid(len / 2)
      ensures
        var round := FirstRound(o, start, old(View(len)));
        l == round.l && r == round.r && View(len / 2) == Folded(old(View(len)), round.u)
    {
      var m := len / 2;
      ghost var av, bv, gv, hv := a[..len], b[..len], g[..], h[..];
      l, r := OriginalCrossTerms(gens, g[..], h[..], a[..len], b[..len]);
      var u := o(Sent(start, l, r));
      var ui := Inverse(u);
      FoldInPlace(a, m, u, ui);
      FoldInPlace(b, m, ui, u);
      RescaleInPlace(g, m, ui, u);
      RescaleInPlace(h, m, u, ui);
      StandingFolds(gens, gv, hv, g[..], h[..], av, bv, u);
    }

    // The first count rounds.
    method OriginalRounds(o: Oracle, start: Log, k: nat, count: nat)
      returns (ls: seq<Encoding>, rs: seq<Encoding>, log: Log)
      requires count <= k && Valid(Pow2(k))
      modifies g, h, a, b
      ensures Valid(Pow2(k - count))
      ensures Progress(start, old(View(Pow2(k))), k, [], []).End(o) == Progress(log, View(Pow2(k - count)), k - count, ls, rs).End(o)
    {
      ls, rs, log := [], [], start;
      ghost var p := Progress(start, View(Pow2(k)), k, [], []);
      ghost var end := p.End(o);
      for round := 0 to count
        invariant Valid(Pow2(k - round))
        invariant p == Progress(log, View(Pow2(k - round)), k - round, ls, rs) && p.End(o) == end
      {
        p.EndAfterRound(o);
        p := p.Next(o);
        var l, r := OriginalRound(o, log, Pow2(k - round));
        log := Sent(log, l, r);
        ls, rs := ls + [Encoded(l)], rs + [Encoded(r)];
      }
    }
  }

  // Each effective base as one multiplication over its residue class of generators.
  method Collapse(coef: seq<Scalar>, points: seq<Element>, len: nat) returns (r: seq<Element>)
    requires |coef| == |points| > 0 && Blocks(|coef|, len)
    ensures r == Reduced(Effective(coef, points, len))
  {
    BlocksBound(|coef|, len);
    r := [];
    for i := 0 to len
      invariant r == Reduced(Effective(coef, points, len))[..i]
    {
      CollapseIsEffective(coef, points, len, i);
      r := r + [Msm(StepBy(coef[i..], len), StepBy(points[i..], len))];
    }
  }

  lemma BlocksBound(n: nat, len: nat)
    requires Blocks(n, len) && n > 0
    ensures len <= n
  {
  }

  lemma LogOfPower(k: nat)
    ensures NumBits(Pow2(k)) == k + 1
  {
    var n := Pow2(k);
    NumBitsBounds(n);
    if NumBits(n) <= k {
      Pow2Monotone(NumBits(n), k);
    } else if NumBits(n) > k + 1 {
      Pow2Monotone(k + 1, NumBits(n) - 1);
    }
  }

  // The proof is the plain protocol's, and the verifier accepts it unless a challenge
  // is zero or an L or R is the identity.
  method Create(o: Oracle, start: Log, Q: Element, Gf: seq<Scalar>, Hf: seq<Scalar>, G: seq<Element>, H: seq<Element>, av: seq<Scalar>, bv: seq<Scalar>, ghost k: nat)
    returns (proof: Proof)
    requires |G| == |H| == |Gf| == |Hf| == |av| == |bv| == Pow2(k)
    ensures
      var x := Instance(Q, Hadamard(Gf, G), Hadamard(Hf, H), av, bv);
      proof == ProofOf(Prove(o, start + [DomainSeparator(|G|)], x, k))
    ensures
      var x := Instance(Q, Hadamard(Gf, G), Hadamard(Hf, H), av, bv);
      k < 32 && GoodRounds(Prove(o, start + [DomainSeparator(|G|)], x, k).rounds) ==>
        Accepts(o, start, proof, |G|, Gf, Hf, Commitment(Q, Gf, Hf, G, H, av, bv), Q, G, H)
  {
    ghost var p := Progress(start + [DomainSeparator(|G|)], Instance(Q, Hadamard(Gf, G), Hadamard(Hf, H), av, bv), k, [], []);
    p.EndFromStart(o);
    proof := CreateFrom(o, start, Q, Gf, Hf, G, H, av, bv, k);
    if k < 32 && GoodRounds(Prove(o, p.log, p.x, k).rounds) {
      InnerProductComplete(o, start, Q, Gf, Hf, G, H, av, bv, k);
    }
  }

  method CreateFrom(o: Oracle, start: Log, Q: Element, Gf: seq<Scalar>, Hf: seq<Scalar>, G: seq<Element>, H: seq<Element>, av: seq<Scalar>, bv: seq<Scalar>, ghost k: nat)
    returns (proof: Proof)
    requires |G| == |H| == |Gf| == |Hf| == |av| == |bv| == Pow2(k)
    ensures proof == Progress(start + [DomainSeparator(|G|)], Instance(Q, Hadamard(Gf, G), Hadamard(Hf, H), av, bv), k, [], []).End(o)
  {
    var n := |G|;
    var a := new Scalar[n](i requires 0 <= i < n => av[i]);
    var b := new Scalar[n](i requires 0 <= i < n => bv[i]);
    var log := start + [DomainSeparator(n)];
    LogOfPower(k);
    var lgN := NumBits(n) - 1;
    var g := new Scalar[n](i requires 0 <= i < n => Gf[i]);
    var h := new Scalar[n](i requires 0 <= i < n => Hf[i]);
    assert g[..] == Gf && h[..] == Hf && a[..n] == av && b[..n] == bv;
    EffectiveAtStart(Gf, G);
    EffectiveAtStart(Hf, H);
    var work := Work(Generators(Q, G, H), g, h, a, b);
    var originalRounds := if n < 4096 then lgN else ORIGINAL_BASE_ROUNDS;
    EnoughRounds(k);
    var ls, rs;
    ls, rs, log := work.OriginalRounds(o, log, lgN, originalRounds);
    var remaining := Pow2(lgN - originalRounds);
    if remaining > 1 {
      var foldedG := Collapse(g[..], G, remaining);
      var foldedH := Collapse(h[..], H, remaining);
      proof := CreateFoldedTail(o, log, Q, a, b, foldedG, foldedH, ls, rs, k - originalRounds);
    } else {
      Progress(log, work.View(1), 0, ls, rs).EndAtLast(o);
      proof := Proof(ls, rs, a[0], b[0]);
    }
  }

  lemma EnoughRounds(k: nat)
    ensures Pow2(k) >= 4096 ==> k >= ORIGINAL_BASE_ROUNDS
  {
    if k < ORIGINAL_BASE_ROUNDS {
      Pow2Monotone(k, 8);
      assert Pow2(4) == 16;
      assert Pow2(8) == 256;
    }
  }
}
