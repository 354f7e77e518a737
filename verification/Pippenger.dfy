// Bucket multiscalar multiplication: pippenger.rs.
module Pippenger {
  import opened Bits
  import opened Scalars
  import opened Vectors
  import Feldman
  import Modular

  const WINDOW_BITS: nat := 4
  const BUCKETS: nat := 16

  // ----- little-endian scalars and their digits -----

  function FromBytes(bytes: seq<Byte>): nat {
    if |bytes| == 0 then 0 else bytes[0] + 256 * FromBytes(bytes[1..])
  }

  // Bit p of the byte string, zero past its end.
  function BitAt(bytes: seq<Byte>, p: nat): (r: nat)
    ensures r <= 1
  {
    if p / 8 < |bytes| then Bit(bytes[p / 8], p % 8) else 0
  }

  lemma ByteShift(b: nat, rest: nat)
    requires b < 256
    ensures Shr(b + 256 * rest, 8) == rest
  {
    var x := b + 256 * rest;
    assert Shr(x, 1) == x / 2 == b / 2 + 128 * rest;
    assert Shr(x, 2) == b / 4 + 64 * rest;
    assert Shr(x, 3) == b / 8 + 32 * rest;
    assert Shr(x, 4) == b / 16 + 16 * rest;
    assert Shr(x, 5) == b / 32 + 8 * rest;
    assert Shr(x, 6) == b / 64 + 4 * rest;
    assert Shr(x, 7) == b / 128 + 2 * rest;
  }

  // 2^m x
  function Shl(x: nat, m: nat): nat {
    if m == 0 then x else 2 * Shl(x, m - 1)
  }

  lemma {:induction false} ShlIs(x: nat, m: nat)
    ensures Shl(x, m) == Pow2(m) * x
  {
    if m > 0 {
      ShlIs(x, m - 1);
      assert Pow2(m) * x == 2 * (Pow2(m - 1) * x);
    }
  }

  lemma LowByteBit(b: nat, rest: nat, k: nat, m: nat)
    requires k < m
    ensures Bit(b + Shl(rest, m), k) == Bit(b, k)
  {
    LowByteShift(b, rest, k, m);
  }

  lemma {:induction false} LowByteShift(b: nat, rest: nat, k: nat, m: nat)
    requires k <= m
    ensures Shr(b + Shl(rest, m), k) == Shr(b, k) + Shl(rest, m - k)
  {
    if k > 0 {
      LowByteShift(b, rest, k - 1, m);
    }
  }

  lemma {:induction false} ShrAdd(x: nat, a: nat, b: nat)
    ensures Shr(x, a + b) == Shr(Shr(x, a), b)
  {
    if b > 0 {
      ShrAdd(x, a, b - 1);
    }
  }

  // The byte string's bits are the number's.
  lemma {:induction false} BytesBit(bytes: seq<Byte>, p: nat)
    ensures BitAt(bytes, p) == Bit(FromBytes(bytes), p)
  {
    if |bytes| == 0 {
      ZeroShift(p);
    } else {
      var rest := FromBytes(bytes[1..]);
      if p < 8 {
        ShlIs(rest, 8);
        assert Pow2(4) == 16 && Pow2(8) == 256;
        LowByteBit(bytes[0], rest, p, 8);
      } else {
        BytesBit(bytes[1..], p - 8);
        ByteShift(bytes[0], rest);
        ShrAdd(FromBytes(bytes), 8, p - 8);
        assert p / 8 == (p - 8) / 8 + 1 && p % 8 == (p - 8) % 8;
      }
    }
  }

  lemma {:induction false} ZeroShift(k: nat)
    ensures Shr(0, k) == 0
  {
    if k > 0 {
      ZeroShift(k - 1);
    }
  }

  // The number the low n bits from position p spell.
  function BitsFrom(x: nat, p: nat, n: nat): nat {
    if n == 0 then 0 else BitsFrom(x, p, n - 1) + Bit(x, p + n - 1) * Pow2(n - 1)
  }

  function Digit(x: nat, window: nat): nat {
    BitsFrom(x, WINDOW_BITS * window, WINDOW_BITS)
  }

  lemma DigitIs(x: nat, window: nat)
    ensures Digit(x, window) < BUCKETS
    ensures Shr(x, WINDOW_BITS * window) == Digit(x, window) + BUCKETS * Shr(x, WINDOW_BITS * (window + 1))
  {
    var p := WINDOW_BITS * window;
    var s := Shr(x, p);
    assert Shr(x, p + 1) == s / 2 && Shr(x, p + 2) == s / 2 / 2 && Shr(x, p + 3) == s / 2 / 2 / 2 && Shr(x, p + 4) == s / 2 / 2 / 2 / 2;
    assert Pow2(1) == 2 && Pow2(2) == 4 && Pow2(3) == 8;
    assert BitsFrom(x, p, 1) == s % 2;
    assert BitsFrom(x, p, 2) == s % 2 + s / 2 % 2 * 2;
    assert BitsFrom(x, p, 3) == s % 2 + s / 2 % 2 * 2 + s / 2 / 2 % 2 * 4;
    assert BitsFrom(x, p, 4) == s % 2 + s / 2 % 2 * 2 + s / 2 / 2 % 2 * 4 + s / 2 / 2 / 2 % 2 * 8;
  }

  method WindowDigit(bytes: seq<Byte>, windowIdx: nat, windowBits: nat) returns (digit: nat)
    ensures digit == BitsFrom(FromBytes(bytes), windowIdx * windowBits, windowBits)
  {
    var bitOffset := windowIdx * windowBits;
    digit := 0;
    for i := 0 to windowBits
      invariant digit == BitsFrom(FromBytes(bytes), bitOffset, i)
    {
      var bitPos := bitOffset + i;
      BytesBit(bytes, bitPos);
      // The bit is set above all earlier ones, so or-ing it in adds it.
      digit := digit + BitAt(bytes, bitPos) * Pow2(i);
    }
  }

  // The digits of windows k and up, below window n.
  function Top(x: nat, k: nat, n: nat): nat
    decreases n - k
  {
    if k >= n then 0 else Digit(x, k) + BUCKETS * Top(x, k + 1, n)
  }

  // Digits recompose: what lies above window n is dropped.
  lemma {:induction false} TopIs(x: nat, k: nat, n: nat)
    requires k <= n
    ensures Shr(x, WINDOW_BITS * k) == Top(x, k, n) + Shl(Shr(x, WINDOW_BITS * n), WINDOW_BITS * (n - k))
    ensures Top(x, k, n) < Pow2(WINDOW_BITS * (n - k))
    decreases n - k
  {
    if k < n {
      TopIs(x, k + 1, n);
      DigitIs(x, k);
      SixteenTimes(Shr(x, WINDOW_BITS * n), WINDOW_BITS * (n - k - 1));
    }
  }

  lemma SixteenTimes(x: nat, e: nat)
    ensures Shl(x, e + 4) == 16 * Shl(x, e) && Pow2(e + 4) == 16 * Pow2(e)
  {
    assert Shl(x, e + 2) == 4 * Shl(x, e) && Pow2(e + 2) == 4 * Pow2(e);
  }

  lemma TruncatedIs(x: nat, n: nat)
    ensures Top(x, 0, n) == LowBits(x, WINDOW_BITS * n)
  {
    TopIs(x, 0, n);
    ShlIs(Shr(x, WINDOW_BITS * n), WINDOW_BITS * n);
    Modular.ModIs(Pow2(WINDOW_BITS * n), x, Shr(x, WINDOW_BITS * n), Top(x, 0, n));
  }

  // ----- buckets -----

  // The sum of the first n points with digit d.
  function BucketSum(digits: seq<nat>, points: seq<Element>, d: nat, n: nat): int
    requires n <= |digits| == |points|
  {
    if n == 0 then 0 else BucketSum(digits, points, d, n - 1) + if digits[n - 1] == d then points[n - 1] else 0
  }

  // The sums of the buckets from d up to m, and of those sums.
  function Running(digits: seq<nat>, points: seq<Element>, d: nat, m: nat): int
    requires |digits| == |points|
    decreases m - d
  {
    if d >= m then 0 else BucketSum(digits, points, d, |digits|) + Running(digits, points, d + 1, m)
  }

  function Staircase(digits: seq<nat>, points: seq<Element>, d: nat, m: nat): int
    requires |digits| == |points|
    decreases m - d
  {
    if d >= m then 0 else Running(digits, points, d, m) + Staircase(digits, points, d + 1, m)
  }

  // What a point with digit e adds to the running sum and to the staircase.
  function Steps(e: nat, d: nat): nat {
    if e < d then 0 else e - d + 1
  }

  lemma {:induction false} RunningPush(digits: seq<nat>, points: seq<Element>, d: nat, m: nat)
    requires |digits| == |points| > 0 && digits[|digits| - 1] < m
    ensures
      var n := |digits| - 1;
      Running(digits, points, d, m) == Running(digits[..n], points[..n], d, m) + if digits[n] >= d then points[n] else 0
    decreases m - d
  {
    if d < m {
      RunningPush(digits, points, d + 1, m);
      BucketPrefix(digits, points, d, |digits| - 1);
    }
  }

  lemma {:induction false} BucketPrefix(digits: seq<nat>, points: seq<Element>, d: nat, n: nat)
    requires n < |digits| == |points|
    ensures BucketSum(digits, points, d, n) == BucketSum(digits[..|digits| - 1], points[..|points| - 1], d, n)
  {
    if n > 0 {
      BucketPrefix(digits, points, d, n - 1);
    }
  }

  lemma {:induction false} StaircasePush(digits: seq<nat>, points: seq<Element>, d: nat, m: nat)
    requires |digits| == |points| > 0 && digits[|digits| - 1] < m
    ensures
      var n := |digits| - 1;
      Staircase(digits, points, d, m) == Staircase(digits[..n], points[..n], d, m) + Times(Steps(digits[n], d), points[n])
    decreases m - d
  {
    var n := |digits| - 1;
    TimesUnits(points[n]);
    if d < m {
      StaircasePush(digits, points, d + 1, m);
      RunningPush(digits, points, d, m);
      if digits[n] >= d {
        TimesDistributes(points[n], Steps(digits[n], d + 1), 1);
      }
    }
  }

  // The running-sum trick: adding up the partial sums weighs each bucket by its digit.
  lemma {:induction false} StaircaseIsWeighted(digits: seq<nat>, points: seq<Element>, m: nat)
    requires |digits| == |points| && forall i :: 0 <= i < |digits| ==> digits[i] < m
    ensures Staircase(digits, points, 1, m) == Dot(digits, points)
  {
    if |digits| == 0 {
      DotEnds(digits, points);
      EmptyStaircase(1, m);
      assert digits == [] && points == [];
    } else {
      var n := |digits| - 1;
      StaircaseIsWeighted(digits[..n], points[..n], m);
      StaircasePush(digits, points, 1, m);
      DotPrefix(digits, points, n);
      DotEnds(digits, points);
      TimesUnits(points[n]);
    }
  }

  lemma {:induction false} EmptyStaircase(d: nat, m: nat)
    ensures Running([], [], d, m) == 0 && Staircase([], [], d, m) == 0
    decreases m - d
  {
    if d < m {
      EmptyStaircase(d + 1, m);
    }
  }

  // One bucket per digit; digit zero is skipped.
  method FillBuckets(bytes: seq<seq<Byte>>, points: seq<Element>, window: nat) returns (buckets: array<Element>)
    requires |bytes| == |points|
    ensures fresh(buckets) && buckets.Length == BUCKETS
    ensures forall d :: 1 <= d < BUCKETS ==> buckets[d] == Red(BucketSum(Digits(Values(bytes), window), points, d, |points|))
  {
    ghost var digits := Digits(Values(bytes), window);
    buckets := new Element[BUCKETS](i => Identity);
    for i := 0 to |points|
      invariant forall d :: 1 <= d < BUCKETS ==> buckets[d] == Red(BucketSum(digits, points, d, i))
    {
      var digit := WindowDigit(bytes[i], window, WINDOW_BITS);
      DigitIs(FromBytes(bytes[i]), window);
      if digit != 0 {
        RedAdd(buckets[digit], BucketSum(digits, points, digit, i), points[i], points[i]);
        buckets[digit] := ElementAdd(buckets[digit], points[i]);
      }
    }
  }

  function Values(bytes: seq<seq<Byte>>): (r: seq<nat>)
    ensures |r| == |bytes|
  {
    seq(|bytes|, i requires 0 <= i < |bytes| => FromBytes(bytes[i]))
  }

  function Digits(values: seq<nat>, window: nat): (r: seq<nat>)
    ensures |r| == |values|
  {
    seq(|values|, i requires 0 <= i < |values| => Digit(values[i], window))
  }

  // The weighted sum of the buckets in one pass.
  method SumBuckets(buckets: array<Element>, ghost digits: seq<nat>, ghost points: seq<Element>) returns (windowSum: Element)
    requires |digits| == |points| && buckets.Length == BUCKETS
    requires forall d :: 1 <= d < BUCKETS ==> buckets[d] == Red(BucketSum(digits, points, d, |points|))
    ensures windowSum == Red(Staircase(digits, points, 1, BUCKETS))
  {
    windowSum := Identity;
    var runningSum := Identity;
    for d := BUCKETS downto 1
      invariant runningSum == Red(Running(digits, points, d, BUCKETS))
      invariant windowSum == Red(Staircase(digits, points, d, BUCKETS))
    {
      var rest := Running(digits, points, d + 1, BUCKETS);
      RedAdd(runningSum, rest, buckets[d], BucketSum(digits, points, d, |points|));
      runningSum := ElementAdd(runningSum, buckets[d]);
      RedAdd(windowSum, Staircase(digits, points, d + 1, BUCKETS), runningSum, Running(digits, points, d, BUCKETS));
      windowSum := ElementAdd(windowSum, runningSum);
    }
  }

  // ----- the whole multiplication -----

  function Tops(values: seq<nat>, k: nat, n: nat): (r: seq<nat>)
    ensures |r| == |values|
  {
    seq(|values|, i requires 0 <= i < |values| => Top(values[i], k, n))
  }

  lemma TopsStep(values: seq<nat>, points: seq<Element>, k: nat, n: nat)
    requires |values| == |points| && k < n
    ensures Dot(Tops(values, k, n), points) == Dot(Digits(values, k), points) + 16 * Dot(Tops(values, k + 1, n), points)
  {
    var digits: seq<int>, above: seq<int> := Digits(values, k), Tops(values, k + 1, n);
    DotPlus(digits, Scale(16, above), points);
    DotScale(16, above, points);
    TimesIsProduct(16, Dot(above, points));
    forall i | 0 <= i < |values|
      ensures Tops(values, k, n)[i] == Plus(digits, Scale(16, above))[i]
    {
      TimesIsProduct(16, above[i]);
    }
    var tops: seq<int> := Tops(values, k, n);
    assert tops == Plus(digits, Scale(16, above));
  }

  method DoubleTimes(p: Element, times: nat) returns (r: Element)
    ensures r == Red(Times(Pow2(times), p))
  {
    r := p;
    TimesUnits(p);
    for i := 0 to times
      invariant r == Red(Times(Pow2(i), p))
    {
      RedAdd(r, Times(Pow2(i), p), r, Times(Pow2(i), p));
      TimesDistributes(p, Pow2(i), Pow2(i));
      r := ElementAdd(r, r);
    }
  }

  method Double4(p: Element) returns (r: Element)
    ensures r == Red(16 * p)
  {
    r := DoubleTimes(p, WINDOW_BITS);
    assert Pow2(4) == 16;
    TimesIsProduct(16, p);
  }

  lemma ScaleBySixteen(p: Element, x: int)
    requires p == Red(x)
    ensures Red(16 * p) == Red(16 * x)
  {
    RedMul(16, 16, p, x);
    TimesIsProduct(16, p);
    TimesIsProduct(16, x);
  }

  function LowBits(x: nat, n: nat): nat {
    x % Pow2(n)
  }

  // The scalars' low 4 * ceil(bits / 4) bits, each read from its byte string.
  function Truncated(values: seq<nat>, bits: nat): (r: seq<nat>)
    ensures |r| == |values|
  {
    seq(|values|, i requires 0 <= i < |values| => LowBits(values[i], WINDOW_BITS * ((bits + 3) / WINDOW_BITS)))
  }

  method MultiScalarMul(bytes: seq<seq<Byte>>, points: seq<Element>, scalarBits: nat) returns (result: Element)
    requires |bytes| == |points|
    ensures result == Msm(Truncated(Values(bytes), scalarBits), points)
  {
    if |points| == 0 {
      DotEnds(Truncated(Values(bytes), scalarBits), points);
      assert Truncated(Values(bytes), scalarBits) == [] && points == [];
      return Identity;
    }
    var numWindows := (scalarBits + 3) / WINDOW_BITS;
    ghost var values := Values(bytes);
    result := Identity;
    NoTops(values, points, numWindows);
    for window := numWindows downto 0
      invariant result == Red(Dot(Tops(values, window, numWindows), points))
    {
      result := Double4(result);
      var buckets := FillBuckets(bytes, points, window);
      var windowSum := SumBuckets(buckets, Digits(values, window), points);
      WindowAdds(values, points, window, numWindows, buckets.Length, windowSum);
      result := ElementAdd(result, windowSum);
    }
    TopsAreTruncated(values, scalarBits);
  }

  lemma WindowAdds(values: seq<nat>, points: seq<Element>, window: nat, n: nat, buckets: nat, windowSum: Element)
    requires |values| == |points| && window < n && buckets == BUCKETS
    requires windowSum == Red(Staircase(Digits(values, window), points, 1, buckets))
    ensures
      var above := Red(Dot(Tops(values, window + 1, n), points));
      ElementAdd(Red(16 * above), windowSum) == Red(Dot(Tops(values, window, n), points))
  {
    var above := Dot(Tops(values, window + 1, n), points);
    ScaleBySixteen(Red(above), above);
    DigitsBelow(values, window);
    StaircaseIsWeighted(Digits(values, window), points, buckets);
    TopsStep(values, points, window, n);
    RedAdd(Red(16 * Red(above)), 16 * above, windowSum, Dot(Digits(values, window), points));
  }

  lemma TopsAreTruncated(values: seq<nat>, bits: nat)
    ensures Tops(values, 0, (bits + 3) / WINDOW_BITS) == Truncated(values, bits)
  {
    forall i | 0 <= i < |values|
      ensures Tops(values, 0, (bits + 3) / WINDOW_BITS)[i] == Truncated(values, bits)[i]
    {
      TruncatedIs(values[i], (bits + 3) / WINDOW_BITS);
    }
  }

  lemma DigitsBelow(values: seq<nat>, window: nat)
    ensures forall i :: 0 <= i < |values| ==> Digits(values, window)[i] < BUCKETS
  {
    forall i | 0 <= i < |values|
      ensures Digits(values, window)[i] < BUCKETS
    {
      DigitIs(values[i], window);
    }
  }

  lemma NoTops(values: seq<nat>, points: seq<Element>, n: nat)
    requires |values| == |points|
    ensures Dot(Tops(values, n, n), points) == 0
  {
    var zeros: seq<int> := Tops(values, n, n);
    Feldman.ZeroDot(zeros, points);
  }

  // Scalars that fit in the bit length are multiplied in full.
  lemma FullMultiplication(bytes: seq<seq<Byte>>, points: seq<Element>, scalarBits: nat)
    requires |bytes| == |points| && forall i :: 0 <= i < |bytes| ==> FromBytes(bytes[i]) < Pow2(scalarBits)
    ensures Msm(Truncated(Values(bytes), scalarBits), points) == Msm(Values(bytes), points)
  {
    var n := WINDOW_BITS * ((scalarBits + 3) / WINDOW_BITS);
    Pow2Monotone(scalarBits, n);
    forall i | 0 <= i < |bytes|
      ensures Truncated(Values(bytes), scalarBits)[i] == Values(bytes)[i]
    {
      Modular.ModIs(Pow2(n), FromBytes(bytes[i]), 0, FromBytes(bytes[i]));
    }
    assert Truncated(Values(bytes), scalarBits) == Values(bytes);
  }
}
