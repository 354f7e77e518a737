// The bases a prover round stands on while the original generators keep their
// accumulated coefficients: inner_product_proof.rs.
//
// With `len` vector entries left, effective base i is the sum of coef[j] * points[j]
// over every index j that is i modulo len.
module EffectiveBases {
  import opened Bits
  import Modular
  import opened Scalars
  import opened Vectors
  import opened Folding

  // n is a multiple of len.
  predicate Blocks(n: nat, len: nat) {
    len > 0 && (n == 0 || (len <= n && Blocks(n - len, len)))
  }

  function Zeros(n: nat): (r: seq<int>)
    ensures |r| == n
  {
    seq(n, i => 0)
  }

  // Block by block: the first len products, plus those of the blocks after it.
  function Effective(coef: seq<Scalar>, points: seq<Element>, len: nat): (r: seq<int>)
    requires |coef| == |points| && Blocks(|coef|, len)
    ensures |r| == len
  {
    if |coef| == 0 then Zeros(len)
    else Plus(Hadamard(coef[..len], points[..len]), Effective(coef[len..], points[len..], len))
  }

  // Whether index j lies in the right half of its block of 2 * m, and where in the half.
  predicate InHigh(j: nat, m: nat)
    requires m > 0
  {
    if j < 2 * m then j >= m else InHigh(j - 2 * m, m)
  }

  function Offset(j: nat, m: nat): (r: nat)
    requires m > 0
    ensures r < m
  {
    if j < m then j else Offset(j - m, m)
  }

  lemma {:induction false} IndexBits(j: nat, m: nat)
    requires m > 0
    ensures InHigh(j, m) <==> j / m % 2 == 1
    ensures Offset(j, m) == j % m
  {
    if j < m {
      Modular.ModIs(m, j, 0, j);
    } else if j < 2 * m {
      Modular.ModIs(m, j, 1, j - m);
      assert Offset(j, m) == j - m;
    } else {
      QuotientStep(j, m, 2);
      IndexBits(j - 2 * m, m);
      assert Offset(j, m) == Offset(j - m, m) == Offset(j - 2 * m, m);
    }
  }

  lemma QuotientStep(j: nat, m: nat, k: nat)
    requires m > 0 && j >= m * k
    ensures j / m == (j - m * k) / m + k && j % m == (j - m * k) % m
  {
    var r := j - m * k;
    assert r == m * (r / m) + r % m;
    assert j == m * (r / m + k) + r % m;
    Modular.ModIs(m, j, r / m + k, r % m);
  }

  lemma {:induction false} BlocksHalve(n: nat, m: nat)
    requires Blocks(n, 2 * m)
    ensures Blocks(n, m)
  {
    if n > 0 {
      BlocksHalve(n - 2 * m, m);
      assert Blocks(n - m, m);
    }
  }

  lemma {:induction false} PowerBlocks(k: nat, j: nat)
    requires j <= k
    ensures Blocks(Pow2(k), Pow2(j))
    decreases k - j
  {
    if j == k {
      assert Blocks(0, Pow2(k));
    } else {
      PowerBlocks(k, j + 1);
      BlocksHalve(Pow2(k), Pow2(j));
    }
  }

  // Before the first round the effective bases are the scaled generators.
  lemma EffectiveAtStart(coef: seq<Scalar>, points: seq<Element>)
    requires |coef| == |points| > 0
    ensures Blocks(|coef|, |coef|)
    ensures Reduced(Effective(coef, points, |coef|)) == Hadamard(coef, points)
  {
    var n := |coef|;
    assert Blocks(0, n);
    assert coef[..n] == coef && points[..n] == points;
    assert Effective(coef[n..], points[n..], n) == Zeros(n);
  }

  // ----- a round multiplies every coefficient by u or its inverse -----

  // Every coefficient times lo in the left half of its block of 2 * m, hi in the right.
  predicate Rescaled(coef: seq<Scalar>, coef': seq<Scalar>, m: nat, lo: Scalar, hi: Scalar)
    requires m > 0
  {
    && |coef| == |coef'|
    && forall j :: 0 <= j < |coef| ==> coef'[j] == Mul(coef[j], if InHigh(j, m) then hi else lo)
  }

  predicate Multiplied(coef: seq<Scalar>, coef': seq<Scalar>, x: Scalar) {
    |coef| == |coef'| && forall i :: 0 <= i < |coef| ==> coef'[i] == Mul(coef[i], x)
  }

  lemma HadamardRescaled(coef: seq<Scalar>, coef': seq<Scalar>, points: seq<Element>, x: Scalar)
    requires |coef| == |points| && Multiplied(coef, coef', x)
    ensures forall i :: 0 <= i < |coef| ==> Hadamard(coef', points)[i] == Red(Times(x, Hadamard(coef, points)[i]))
  {
    forall i | 0 <= i < |coef|
      ensures Hadamard(coef', points)[i] == Red(Times(x, Hadamard(coef, points)[i]))
    {
      TimesCommutes(coef[i], x);
      MulAssociates(x, coef[i], points[i]);
    }
  }

  // The first block of 2 * m splits in two halves of m.
  lemma EffectiveHalves(coef: seq<Scalar>, points: seq<Element>, m: nat)
    requires |coef| == |points| > 0 && Blocks(|coef|, 2 * m)
    ensures Blocks(|coef|, m) && Blocks(|coef| - 2 * m, m)
    ensures Effective(coef, points, m) ==
      Plus(Hadamard(coef[..m], points[..m]),
           Plus(Hadamard(coef[m..2 * m], points[m..2 * m]), Effective(coef[2 * m..], points[2 * m..], m)))
  {
    BlocksHalve(|coef|, m);
    BlocksHalve(|coef| - 2 * m, m);
    var c, p := coef[m..], points[m..];
    assert c[..m] == coef[m..2 * m] && p[..m] == points[m..2 * m];
    assert c[m..] == coef[2 * m..] && p[m..] == points[2 * m..];
  }

  // Rescaling folds the effective bases.
  lemma {:induction false} EffectiveFolds(coef: seq<Scalar>, coef': seq<Scalar>, points: seq<Element>, m: nat, lo: Scalar, hi: Scalar)
    requires |coef| == |points| && Blocks(|coef|, 2 * m) && Rescaled(coef, coef', m, lo, hi)
    ensures Blocks(|coef|, m)
    ensures
      FoldsTo(Effective(coef, points, 2 * m), Effective(coef', points, m), lo, hi)
    decreases |coef|
  {
    BlocksHalve(|coef|, m);
    if |coef| == 0 {
      TimesUnits(lo);
      TimesUnits(hi);
    } else {
      RescaledTail(coef, coef', m, lo, hi);
      EffectiveFolds(coef[2 * m..], coef'[2 * m..], points[2 * m..], m, lo, hi);
      EffectiveHalves(coef', points, m);
      HadamardRescaled(coef[..m], coef'[..m], points[..m], lo);
      HadamardRescaled(coef[m..2 * m], coef'[m..2 * m], points[m..2 * m], hi);
      BlockFolds(lo, hi,
        Hadamard(coef[..m], points[..m]), Hadamard(coef[m..2 * m], points[m..2 * m]), Effective(coef[2 * m..], points[2 * m..], 2 * m),
        Hadamard(coef'[..m], points[..m]), Hadamard(coef'[m..2 * m], points[m..2 * m]), Effective(coef'[2 * m..], points[2 * m..], m));
      assert Hadamard(coef[..2 * m], points[..2 * m]) == Hadamard(coef[..m], points[..m]) + Hadamard(coef[m..2 * m], points[m..2 * m]);
    }
  }

  predicate FoldsTo(e: seq<int>, e': seq<int>, lo: Scalar, hi: Scalar)
    requires |e| % 2 == 0
  {
    Same(e', Plus(Scale(lo, Low(e)), Scale(hi, High(e))))
  }

  // One block of halves x and y in front of the rest.
  lemma BlockFolds(lo: Scalar, hi: Scalar, x: seq<Scalar>, y: seq<Scalar>, rest: seq<int>, x': seq<Scalar>, y': seq<Scalar>, rest': seq<int>)
    requires |x| == |y| == |x'| == |y'| == |rest'| && |rest| == 2 * |x|
    requires forall i :: 0 <= i < |x| ==> x'[i] == Red(Times(lo, x[i]))
    requires forall i :: 0 <= i < |y| ==> y'[i] == Red(Times(hi, y[i]))
    requires FoldsTo(rest, rest', lo, hi)
    ensures FoldsTo(Plus(x + y, rest), Plus(x', Plus(y', rest')), lo, hi)
  {
    var m := |x|;
    var e, e' := Plus(x + y, rest), Plus(x', Plus(y', rest'));
    forall i | 0 <= i < m
      ensures Red(e'[i]) == Red(Plus(Scale(lo, Low(e)), Scale(hi, High(e)))[i])
    {
      assert Red(rest'[i]) == Red(Plus(Scale(lo, Low(rest)), Scale(hi, High(rest)))[i]);
      BlockEntry(lo, hi, x[i], y[i], rest[i], rest[m + i], rest'[i]);
    }
  }

  lemma RescaledTail(coef: seq<Scalar>, coef': seq<Scalar>, m: nat, lo: Scalar, hi: Scalar)
    requires m > 0 && 2 * m <= |coef| && Rescaled(coef, coef', m, lo, hi)
    ensures Rescaled(coef[2 * m..], coef'[2 * m..], m, lo, hi)
    ensures Multiplied(coef[..m], coef'[..m], lo) && Multiplied(coef[m..2 * m], coef'[m..2 * m], hi)
  {
    forall j | 0 <= j < |coef| - 2 * m
      ensures InHigh(j + 2 * m, m) == InHigh(j, m)
    {
    }
    assert forall i :: 0 <= i < m ==> !InHigh(i, m);
    assert forall i :: m <= i < 2 * m ==> InHigh(i, m);
  }

  lemma BlockEntry(lo: int, hi: int, x: int, y: int, p: int, r: int, rest': int)
    requires Red(rest') == Red(Times(lo, p) + Times(hi, r))
    ensures Red(Red(Times(lo, x)) + (Red(Times(hi, y)) + rest')) == Red(Times(lo, x + p) + Times(hi, y + r))
  {
    RedAdd(Red(Times(hi, y)), Times(hi, y), rest', Times(lo, p) + Times(hi, r));
    RedAdd(Red(Times(lo, x)), Times(lo, x), Red(Times(hi, y)) + rest', Times(hi, y) + (Times(lo, p) + Times(hi, r)));
    TimesDistributes(lo, x, p);
    TimesDistributes(hi, y, r);
  }

  // ----- a round's cross terms over the original generators -----

  // The half vector v paired with one family of generators.
  datatype Side = Side(v: seq<Scalar>, coef: seq<Scalar>, points: seq<Element>) {
    predicate Fits(m: nat) {
      |v| == m && |coef| == |points| && Blocks(|points|, 2 * m)
    }

    function After(n: nat): Side
      requires n <= |coef| && n <= |points|
    {
      Side(v, coef[n..], points[n..])
    }
  }

  // The multiplication's inputs: index j takes side hi in right halves, lo in left ones.
  function MixedScalars(m: nat, hi: Side, lo: Side): (r: seq<Scalar>)
    requires hi.Fits(m) && lo.Fits(m) && |hi.points| == |lo.points|
    ensures |r| == |hi.points|
  {
    seq(|hi.points|, j requires 0 <= j < |hi.points| => MixedScalar(m, hi, lo, j))
  }

  function MixedScalar(m: nat, hi: Side, lo: Side, j: nat): Scalar
    requires hi.Fits(m) && lo.Fits(m) && j < |hi.coef| == |lo.coef|
  {
    if InHigh(j, m) then Mul(hi.v[Offset(j, m)], hi.coef[j]) else Mul(lo.v[Offset(j, m)], lo.coef[j])
  }

  function MixedPoints(m: nat, hi: Side, lo: Side): (r: seq<Element>)
    requires m > 0 && |hi.points| == |lo.points|
    ensures |r| == |hi.points|
  {
    seq(|hi.points|, j requires 0 <= j < |hi.points| => if InHigh(j, m) then hi.points[j] else lo.points[j])
  }

  lemma MixedScalarsBlock(m: nat, hi: Side, lo: Side)
    requires hi.Fits(m) && lo.Fits(m) && |hi.points| == |lo.points| > 0
    ensures MixedScalars(m, hi, lo) ==
      Hadamard(lo.v, lo.coef[..m]) + Hadamard(hi.v, hi.coef[m..2 * m]) + MixedScalars(m, hi.After(2 * m), lo.After(2 * m))
  {
    var rest := MixedScalars(m, hi.After(2 * m), lo.After(2 * m));
    var x, y := Hadamard(lo.v, lo.coef[..m]), Hadamard(hi.v, hi.coef[m..2 * m]);
    forall j | 0 <= j < |hi.points|
      ensures MixedScalars(m, hi, lo)[j] == if j < m then x[j] else if j < 2 * m then y[j - m] else rest[j - 2 * m]
    {
      MixedEntry(m, hi, lo, j);
    }
    ThreeBlocks(MixedScalars(m, hi, lo), x, y, rest);
  }

  lemma MixedEntry(m: nat, hi: Side, lo: Side, j: nat)
    requires hi.Fits(m) && lo.Fits(m) && j < |hi.coef| == |lo.coef| && 2 * m <= |hi.coef|
    ensures MixedScalar(m, hi, lo, j) ==
      if j < m then Mul(lo.v[j], lo.coef[j]) else if j < 2 * m then Mul(hi.v[j - m], hi.coef[j])
      else MixedScalar(m, hi.After(2 * m), lo.After(2 * m), j - 2 * m)
  {
    IndexBlock(j, m);
  }

  lemma MixedPointsBlock(m: nat, hi: Side, lo: Side)
    requires hi.Fits(m) && lo.Fits(m) && |hi.points| == |lo.points| > 0
    ensures MixedPoints(m, hi, lo) ==
      lo.points[..m] + hi.points[m..2 * m] + MixedPoints(m, hi.After(2 * m), lo.After(2 * m))
  {
    var rest := MixedPoints(m, hi.After(2 * m), lo.After(2 * m));
    forall j | 0 <= j < |hi.points|
      ensures MixedPoints(m, hi, lo)[j] == if j < m then lo.points[j] else if j < 2 * m then hi.points[j] else rest[j - 2 * m]
    {
      IndexBlock(j, m);
    }
    ThreeBlocks(MixedPoints(m, hi, lo), lo.points[..m], hi.points[m..2 * m], rest);
  }

  lemma ThreeBlocks(s: seq<Scalar>, x: seq<Scalar>, y: seq<Scalar>, rest: seq<Scalar>)
    requires |x| == |y| && |s| == 2 * |x| + |rest|
    requires forall j :: 0 <= j < |s| ==>
      s[j] == if j < |x| then x[j] else if j < 2 * |x| then y[j - |x|] else rest[j - 2 * |x|]
    ensures s == x + y + rest
  {
  }

  lemma IndexBlock(j: nat, m: nat)
    requires m > 0
    ensures j < m ==> !InHigh(j, m) && Offset(j, m) == j
    ensures m <= j < 2 * m ==> InHigh(j, m) && Offset(j, m) == j - m
    ensures 2 * m <= j ==> InHigh(j, m) == InHigh(j - 2 * m, m) && Offset(j, m) == Offset(j - 2 * m, m)
  {
    if 2 * m <= j {
      assert Offset(j, m) == Offset(j - m, m);
    }
  }

  // The original generators give the cross term of the effective bases.
  lemma {:induction false} MixedDot(m: nat, hi: Side, lo: Side)
    requires hi.Fits(m) && lo.Fits(m) && |hi.points| == |lo.points|
    ensures Red(Dot(MixedScalars(m, hi, lo), MixedPoints(m, hi, lo))) ==
      Red(Dot(hi.v, High(Effective(hi.coef, hi.points, 2 * m))) + Dot(lo.v, Low(Effective(lo.coef, lo.points, 2 * m))))
    decreases |hi.points|
  {
    if |hi.points| == 0 {
      DotEnds(MixedScalars(m, hi, lo), MixedPoints(m, hi, lo));
      assert MixedScalars(m, hi, lo)[..0] == MixedScalars(m, hi, lo) && MixedPoints(m, hi, lo)[..0] == MixedPoints(m, hi, lo);
      DotZeros(hi.v);
      DotZeros(lo.v);
      assert High(Zeros(2 * m)) == Zeros(m) && Low(Zeros(2 * m)) == Zeros(m);
    } else {
      var hi', lo' := hi.After(2 * m), lo.After(2 * m);
      MixedDot(m, hi', lo');
      MixedScalarsBlock(m, hi, lo);
      MixedPointsBlock(m, hi, lo);
      var x, y := Hadamard(lo.v, lo.coef[..m]), Hadamard(hi.v, hi.coef[m..2 * m]);
      DotConcat(x, y, lo.points[..m], hi.points[m..2 * m]);
      DotConcat(x + y, MixedScalars(m, hi', lo'), lo.points[..m] + hi.points[m..2 * m], MixedPoints(m, hi', lo'));
      LowBlock(m, lo);
      HighBlock(m, hi);
      MixedSum(Dot(x, lo.points[..m]), Dot(y, hi.points[m..2 * m]), Dot(MixedScalars(m, hi', lo'), MixedPoints(m, hi', lo')),
               Dot(hi.v, High(Effective(hi.coef, hi.points, 2 * m))), Dot(hi.v, High(Effective(hi'.coef, hi'.points, 2 * m))),
               Dot(lo.v, Low(Effective(lo.coef, lo.points, 2 * m))), Dot(lo.v, Low(Effective(lo'.coef, lo'.points, 2 * m))));
    }
  }

  lemma {:induction false} DotZeros(v: seq<int>)
    ensures Dot(v, Zeros(|v|)) == 0
  {
    Dots();
    if |v| > 0 {
      DotZeros(v[..|v| - 1]);
      TimesUnits(v[|v| - 1]);
      assert Zeros(|v|)[..|v| - 1] == Zeros(|v| - 1);
    }
  }

  lemma DotSum(v: seq<int>, a: seq<int>, b: seq<int>)
    requires |v| == |a| == |b|
    ensures Dot(v, Plus(a, b)) == Dot(v, a) + Dot(v, b)
  {
    DotPlus(a, b, v);
    DotCommutes(v, Plus(a, b));
    DotCommutes(v, a);
    DotCommutes(v, b);
  }

  lemma LowBlock(m: nat, s: Side)
    requires s.Fits(m) && |s.points| > 0
    ensures
      Red(Dot(s.v, Low(Effective(s.coef, s.points, 2 * m)))) ==
      Red(Dot(Hadamard(s.v, s.coef[..m]), s.points[..m]) + Dot(s.v, Low(Effective(s.coef[2 * m..], s.points[2 * m..], 2 * m))))
  {
    var rest := Effective(s.coef[2 * m..], s.points[2 * m..], 2 * m);
    var first := Hadamard(s.coef[..m], s.points[..m]);
    assert Low(Effective(s.coef, s.points, 2 * m)) == Plus(first, Low(rest));
    DotSum(s.v, first, Low(rest));
    DotHadamard(s.v, s.coef[..m], s.points[..m]);
    RedAdd(Dot(s.v, first), Dot(Hadamard(s.v, s.coef[..m]), s.points[..m]), Dot(s.v, Low(rest)), Dot(s.v, Low(rest)));
  }

  lemma HighBlock(m: nat, s: Side)
    requires s.Fits(m) && |s.points| > 0
    ensures
      Red(Dot(s.v, High(Effective(s.coef, s.points, 2 * m)))) ==
      Red(Dot(Hadamard(s.v, s.coef[m..2 * m]), s.points[m..2 * m]) + Dot(s.v, High(Effective(s.coef[2 * m..], s.points[2 * m..], 2 * m))))
  {
    var rest := Effective(s.coef[2 * m..], s.points[2 * m..], 2 * m);
    var first := Hadamard(s.coef[m..2 * m], s.points[m..2 * m]);
    assert High(Effective(s.coef, s.points, 2 * m)) == Plus(first, High(rest));
    DotSum(s.v, first, High(rest));
    DotHadamard(s.v, s.coef[m..2 * m], s.points[m..2 * m]);
    RedAdd(Dot(s.v, first), Dot(Hadamard(s.v, s.coef[m..2 * m]), s.points[m..2 * m]), Dot(s.v, High(rest)), Dot(s.v, High(rest)));
  }

  lemma MixedSum(x: int, y: int, rest: int, hi: int, hi': int, lo: int, lo': int)
    requires Red(rest) == Red(hi' + lo') && Red(lo) == Red(x + lo') && Red(hi) == Red(y + hi')
    ensures Red(x + y + rest) == Red(hi + lo)
  {
    RedAdd(hi, y + hi', lo, x + lo');
    RedAdd(x + y, x + y, rest, hi' + lo');
    assert x + y + (hi' + lo') == y + hi' + (x + lo');
  }

  // ----- the one-time collapse -----

  // Every len-th entry, from the first on.
  function StepBy<T>(s: seq<T>, len: nat): seq<T>
    requires len > 0
    decreases |s|
  {
    if |s| == 0 then []
    else [s[0]] + StepBy(if |s| < len then [] else s[len..], len)
  }

  lemma {:induction false} StepByLength<A, B>(s: seq<A>, t: seq<B>, len: nat)
    requires len > 0 && |s| == |t|
    ensures |StepBy(s, len)| == |StepBy(t, len)|
    decreases |s|
  {
    if |s| > 0 {
      StepByLength(if |s| < len then [] else s[len..], if |t| < len then [] else t[len..], len);
    }
  }

  // Collapsing by residue gives the effective bases.
  lemma {:induction false} CollapseIsEffective(coef: seq<Scalar>, points: seq<Element>, len: nat, i: nat)
    requires |coef| == |points| && Blocks(|coef|, len) && i < len && (|coef| > 0 || i == 0)
    ensures |StepBy(coef[i..], len)| == |StepBy(points[i..], len)|
    ensures Red(Dot(StepBy(coef[i..], len), StepBy(points[i..], len))) == Red(Effective(coef, points, len)[i])
    decreases |coef|
  {
    StepByLength(coef[i..], points[i..], len);
    if |coef| == 0 {
      DotEnds(StepBy(coef[i..], len), StepBy(points[i..], len));
    } else {
      var c, p := coef[len..], points[len..];
      var head := Hadamard(coef[..len], points[..len])[i];
      if |coef| == len {
        StepsOnce(coef, len, i);
        StepsOnce(points, len, i);
        DotEnds([coef[i]], [points[i]]);
      } else {
        CollapseIsEffective(c, p, len, i);
        assert coef[i..][len..] == c[i..] && points[i..][len..] == p[i..];
        var cs, ps := StepBy(c[i..], len), StepBy(p[i..], len);
        DotConcat([coef[i]], cs, [points[i]], ps);
        DotEnds([coef[i]], [points[i]]);
        RedAdd(Times(coef[i], points[i]), head, Dot(cs, ps), Effective(c, p, len)[i]);
      }
    }
  }

  lemma StepsOnce<T>(s: seq<T>, len: nat, i: nat)
    requires |s| == len > 0 && i < len
    ensures StepBy(s[i..], len) == [s[i]]
  {
    var t := s[i..];
    assert StepBy(if |t| < len then [] else t[len..], len) == [];
  }
}
