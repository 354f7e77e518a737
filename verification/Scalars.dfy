// The scalar field of the prime-order group, and the group itself.
//
// A group element is written by its discrete logarithm to the fixed generator:
// the group has prime order `q`, so it is the residues modulo `q` under addition,
// the generator is 1, the identity is 0, and scalar multiplication is
// multiplication modulo `q`.
module Scalars {
  import opened Wrappers
  import opened Modular

  // The order of the group, an arbitrary prime.
  const q: Prime

  type Scalar = x: int | 0 <= x < q witness 0
  type Element = Scalar

  // The integer product and the remainder modulo q, folded behind a countdown: the
  // verifier does not unfold it, so that products and remainders enter a proof only
  // where it calls `Products` or `RedIsRemainder`.
  function FoldedProduct(x: int, y: int, n: nat): int {
    if n == 0 then x * y else FoldedProduct(x, y, n - 1)
  }

  function FoldedRemainder(x: int, n: nat): Scalar {
    if n == 0 then x % q else FoldedRemainder(x, n - 1)
  }

  // x * y
  function Times(x: int, y: int): int {
    FoldedProduct(x, y, q)
  }

  // x modulo q
  function Red(x: int): Scalar {
    if 0 <= x < q then x else FoldedRemainder(x, q)
  }

  lemma UnfoldProduct(x: int, y: int, n: nat)
    ensures FoldedProduct(x, y, n) == x * y
  {
  }

  lemma UnfoldRemainder(x: int, n: nat)
    ensures FoldedRemainder(x, n) == x % q
  {
  }

  lemma TimesIsProduct(x: int, y: int)
    ensures Times(x, y) == x * y
  {
    UnfoldProduct(x, y, q);
  }

  lemma Products()
    ensures forall x: int, y: int :: Times(x, y) == x * y
  {
    forall x: int, y: int
      ensures Times(x, y) == x * y
    {
      TimesIsProduct(x, y);
    }
  }

  lemma RedIsRemainder(x: int)
    ensures Red(x) == x % q
  {
    UnfoldRemainder(x, q);
    if 0 <= x < q {
      ModIs(q, x, 0, x);
    }
  }

  function Add(x: Scalar, y: Scalar): Scalar {
    Red(x + y)
  }

  function Sub(x: Scalar, y: Scalar): Scalar {
    Red(x - y)
  }

  function Mul(x: Scalar, y: Scalar): Scalar {
    Red(Times(x, y))
  }

  function Neg(x: Scalar): Scalar {
    Red(0 - x)
  }

  function Inverse(x: Scalar): Scalar {
    Red(ExtendedGcd(x, q).s)
  }

  function Invert(x: Scalar): Option<Scalar> {
    if x == 0 then None else Some(Inverse(x))
  }

  // The group law, in discrete logarithms.
  const Identity: Element := 0
  const Generator: Element := 1

  function ElementAdd(x: Element, y: Element): Element {
    Add(x, y)
  }

  function ElementSub(x: Element, y: Element): Element {
    Sub(x, y)
  }

  function ElementMul(x: Element, k: Scalar): Element {
    Mul(x, k)
  }

  function MulGenerator(k: Scalar): Element {
    ElementMul(Generator, k)
  }

  // ----- residues of integer expressions -----

  lemma RedEq(x: int, y: int, k: int)
    requires x - y == q * k
    ensures Red(x) == Red(y)
  {
    RedIsRemainder(x);
    RedIsRemainder(y);
    CongFromDiff(q, x, y, k);
  }

  lemma RedDiff(x: int, y: int) returns (k: int)
    requires Red(x) == Red(y)
    ensures x - y == q * k
  {
    RedIsRemainder(x);
    RedIsRemainder(y);
    k := DiffFromCong(q, x, y);
  }

  lemma RedAdd(x: int, x': int, y: int, y': int)
    requires Red(x) == Red(x') && Red(y) == Red(y')
    ensures Red(x + y) == Red(x' + y')
  {
    var j := RedDiff(x, x');
    var k := RedDiff(y, y');
    Distribute(q, j, k);
    RedEq(x + y, x' + y', j + k);
  }

  lemma Distribute(m: int, j: int, k: int)
    ensures m * (j + k) == m * j + m * k && m * (j - k) == m * j - m * k
  {
  }

  lemma RedMul(x: int, x': int, y: int, y': int)
    requires Red(x) == Red(x') && Red(y) == Red(y')
    ensures Red(Times(x, y)) == Red(Times(x', y'))
  {
    var j := RedDiff(x, x');
    var k := RedDiff(y, y');
    TimesIsProduct(x, y);
    TimesIsProduct(x', y');
    ProductDifference(q, x, x', y, y', j, k);
    RedEq(x * y, x' * y', j * y + k * x');
  }

  lemma ProductDifference(m: int, x: int, x': int, y: int, y': int, j: int, k: int)
    requires x - x' == m * j && y - y' == m * k
    ensures x * y - x' * y' == m * (j * y + k * x')
  {
    assert x * y == x' * y + m * j * y;
    assert x' * y == x' * y' + x' * (m * k);
  }

  lemma RedSub(x: int, x': int, y: int, y': int)
    requires Red(x) == Red(x') && Red(y) == Red(y')
    ensures Red(x - y) == Red(x' - y')
  {
    var j := RedDiff(x, x');
    var k := RedDiff(y, y');
    Distribute(q, j, k);
    RedEq(x - y, x' - y', j - k);
  }

  lemma InverseLaw(x: Scalar)
    requires x != 0
    ensures Red(Times(x, Inverse(x))) == 1 && Inverse(x) != 0
  {
    var s := ExtendedGcd(x, q).s;
    PrimeInverse(q, x);
    RedIsRemainder(x * s);
    RedIsRemainder(1);
    TimesIsProduct(x, s);
    RedMul(x, x, Red(s), s);
    TimesIsProduct(x, 0);
  }

  // A product vanishes only when a factor does.
  lemma NoZeroDivisors(x: int, y: int)
    requires Red(Times(x, y)) == 0
    ensures Red(x) == 0 || Red(y) == 0
  {
    if Red(x) != 0 {
      TimesIsProduct(x, 0);
      CancelFactor(x, y, 0);
    }
  }

  lemma CancelFactor(c: int, x: int, y: int)
    requires Red(c) != 0 && Red(Times(c, x)) == Red(Times(c, y))
    ensures Red(x) == Red(y)
  {
    var i := Inverse(Red(c));
    RecoverFactor(c, x);
    RecoverFactor(c, y);
    RedMul(i, i, Times(c, x), Times(c, y));
  }

  lemma RecoverFactor(c: int, x: int)
    requires Red(c) != 0
    ensures Red(Times(Inverse(Red(c)), Times(c, x))) == Red(x)
  {
    var i := Inverse(Red(c));
    InverseLaw(Red(c));
    RedMul(Red(c), c, i, i);
    RedMul(Times(c, i), 1, x, x);
    TimesReassociate(i, c, x);
    TimesUnits(x);
  }

  // Reducing inside a product changes nothing.
  lemma MulAssociates(x: int, y: int, z: int)
    ensures Red(Times(Red(Times(x, y)), z)) == Red(Times(x, Times(y, z))) == Red(Times(x, Red(Times(y, z))))
  {
    RedMul(Red(Times(x, y)), Times(x, y), z, z);
    RedMul(x, x, Red(Times(y, z)), Times(y, z));
    TimesAssociates(x, y, z);
  }

  lemma TimesAssociates(x: int, y: int, z: int)
    ensures Times(Times(x, y), z) == Times(x, Times(y, z))
  {
    Products();
    assert x * (y * z) == (x * y) * z;
  }

  lemma TimesCommutes(x: int, y: int)
    ensures Times(x, y) == Times(y, x)
  {
    Products();
  }

  lemma TimesDistributes(x: int, y: int, z: int)
    ensures Times(x, y + z) == Times(x, y) + Times(x, z) && Times(y + z, x) == Times(y, x) + Times(z, x)
    ensures Times(x, y - z) == Times(x, y) - Times(x, z) && Times(y - z, x) == Times(y, x) - Times(z, x)
  {
    Products();
  }

  lemma TimesUnits(x: int)
    ensures Times(x, 0) == Times(0, x) == 0 && Times(x, 1) == Times(1, x) == x
  {
    Products();
  }

  lemma GeneratorLog(k: Scalar)
    ensures MulGenerator(k) == k
  {
    TimesUnits(k);
  }

  lemma TimesReassociate(x: int, y: int, z: int)
    ensures Times(x, Times(y, z)) == Times(Times(y, x), z)
  {
    TimesAssociates(x, y, z);
    TimesAssociates(y, x, z);
    TimesCommutes(x, y);
  }
}
