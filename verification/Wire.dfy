// The canonical byte encoding's primitives and its reader: wire.rs.
module Wire {
  import opened Wrappers
  import opened Bits
  import opened Core
  import opened Scalars

  // Machine sizes are 64 bits wide.
  const SIZE_LIMIT: nat := 0x1_0000_0000_0000_0000

  const WORD_BYTES: nat := 4
  const LEN_BYTES: nat := 8

  // ----- big-endian integers -----

  // The low 8k bits of x, most significant byte first.
  function ToBe(x: nat, k: nat): (r: Bytes)
    ensures |r| == k
  {
    if k == 0 then [] else ToBe(x / 256, k - 1) + [x % 256]
  }

  function FromBe(bytes: Bytes): nat {
    if |bytes| == 0 then 0 else 256 * FromBe(bytes[..|bytes| - 1]) + bytes[|bytes| - 1]
  }

  function Pow256(k: nat): nat {
    if k == 0 then 1 else 256 * Pow256(k - 1)
  }

  lemma {:induction false} FromToBe(x: nat, k: nat)
    requires x < Pow256(k)
    ensures FromBe(ToBe(x, k)) == x
  {
    if k > 0 {
      FromToBe(x / 256, k - 1);
    }
  }

  lemma {:induction false} ToFromBe(bytes: Bytes)
    ensures FromBe(bytes) < Pow256(|bytes|) && ToBe(FromBe(bytes), |bytes|) == bytes
  {
    if |bytes| > 0 {
      ToFromBe(bytes[..|bytes| - 1]);
    }
  }

  // Encodings of one width compare lexicographically as their numbers do: they differ
  // first at i, where the smaller number has the smaller byte.
  lemma {:induction false} EncodingKeepsOrder(x: nat, y: nat, k: nat) returns (i: nat)
    requires x < y < Pow256(k)
    ensures i < k && ToBe(x, k)[..i] == ToBe(y, k)[..i] && ToBe(x, k)[i] < ToBe(y, k)[i]
  {
    var a, b := ToBe(x / 256, k - 1), ToBe(y / 256, k - 1);
    if x / 256 < y / 256 {
      i := EncodingKeepsOrder(x / 256, y / 256, k - 1);
      assert ToBe(x, k)[..i] == a[..i] && ToBe(y, k)[..i] == b[..i];
    } else {
      i := k - 1;
      assert ToBe(x, k)[..i] == a && ToBe(y, k)[..i] == b;
    }
  }

  lemma Widths()
    ensures Pow256(4) == 0x1_0000_0000 && Pow256(8) == SIZE_LIMIT
  {
    assert Pow256(4) == 0x1_0000_0000;
  }

  function U32(x: nat): (r: Bytes)
    ensures |r| == 4
  {
    ToBe(x, WORD_BYTES)
  }

  // A collection length, or a size.
  function Len(x: nat): (r: Bytes)
    ensures |r| == 8
  {
    ToBe(x, LEN_BYTES)
  }

  function ContextField(bytes: Bytes): Bytes {
    Len(|bytes|) + bytes
  }

  // ----- prefixes -----

  // s begins with a, and s is a followed by rest: folded, so that the bytes themselves
  // enter a proof only where it calls `Prefixes`.
  ghost predicate FoldedStarts(a: Bytes, s: Bytes, n: nat) {
    if n == 0 then a <= s else FoldedStarts(a, s, n - 1)
  }

  ghost predicate FoldedSplits(s: Bytes, a: Bytes, rest: Bytes, n: nat) {
    if n == 0 then s == a + rest else FoldedSplits(s, a, rest, n - 1)
  }

  ghost predicate Starts(a: Bytes, s: Bytes) {
    FoldedStarts(a, s, q)
  }

  ghost predicate Splits(s: Bytes, a: Bytes, rest: Bytes) {
    FoldedSplits(s, a, rest, q)
  }

  lemma UnfoldStarts(a: Bytes, s: Bytes, n: nat)
    ensures FoldedStarts(a, s, n) <==> a <= s
  {
  }

  lemma UnfoldSplits(s: Bytes, a: Bytes, rest: Bytes, n: nat)
    ensures FoldedSplits(s, a, rest, n) <==> s == a + rest
  {
  }

  lemma Prefixes()
    ensures forall a: Bytes, s: Bytes :: Starts(a, s) <==> a <= s
    ensures forall s: Bytes, a: Bytes, rest: Bytes :: Splits(s, a, rest) <==> s == a + rest
  {
    forall a: Bytes, s: Bytes
      ensures Starts(a, s) <==> a <= s
    {
      UnfoldStarts(a, s, q);
    }
    forall s: Bytes, a: Bytes, rest: Bytes
      ensures Splits(s, a, rest) <==> s == a + rest
    {
      UnfoldSplits(s, a, rest, q);
    }
  }

  lemma StartsFirst(a: Bytes, b: Bytes, s: Bytes)
    requires Starts(a + b, s)
    ensures Starts(a, s)
  {
    Prefixes();
    assert a == (a + b)[..|a|] == s[..|a|];
  }

  lemma StartsRest(a: Bytes, b: Bytes, s: Bytes, rest: Bytes)
    requires Starts(a + b, s) && Splits(s, a, rest)
    ensures Starts(b, rest)
  {
    Prefixes();
    assert b == s[..|a + b|][|a|..];
  }

  lemma SplitsTwice(s: Bytes, a: Bytes, middle: Bytes, b: Bytes, rest: Bytes)
    requires Splits(s, a, middle) && Splits(middle, b, rest)
    ensures Splits(s, a + b, rest)
  {
    Prefixes();
  }

  lemma SplitsStarts(s: Bytes, a: Bytes, rest: Bytes)
    requires Splits(s, a, rest)
    ensures Starts(a, s)
  {
    Prefixes();
  }

  // ----- the reader -----

  class WireReader {
    const bytes: Bytes
    var cursor: nat

    // The reader never passes the end.
    ghost predicate Valid()
      reads this
    {
      cursor <= |bytes| < SIZE_LIMIT
    }

    // The unread bytes.
    function Rest(): Bytes
      requires Valid()
      reads this
    {
      bytes[cursor..]
    }

    constructor (bytes: Bytes)
      requires |bytes| < SIZE_LIMIT
      ensures Valid() && this.bytes == bytes && Rest() == bytes
    {
      this.bytes := bytes;
      cursor := 0;
    }

    method ReadExact(len: nat) returns (r: Result<Bytes, Error>)
      requires Valid()
      modifies this
      ensures Valid()
      ensures r.Ok? <==> len <= |old(Rest())|
      ensures r.Ok? ==> |r.value| == len && Splits(old(Rest()), r.value, Rest())
      ensures forall v :: Starts(v, old(Rest())) && |v| == len ==> r.Ok? && r.value == v
      ensures r.Err? ==> r.error == InvalidEncoding && cursor == old(cursor)
    {
      Prefixes();
      var end := cursor + len;
      // The checked addition overflows only past the end.
      if end >= SIZE_LIMIT || end > |bytes| {
        return Err(InvalidEncoding);
      }
      var slice := bytes[cursor..end];
      assert slice == Rest()[..len];
      cursor := end;
      return Ok(slice);
    }

    // A byte array of fixed size.
    method ReadArray(n: nat) returns (r: Result<Bytes, Error>)
      requires Valid()
      modifies this
      ensures Valid()
      ensures r.Ok? ==> |r.value| == n && Splits(old(Rest()), r.value, Rest())
      ensures forall v :: Starts(v, old(Rest())) && |v| == n ==> r.Ok? && r.value == v
    {
      r := ReadExact(n);
    }

    method ReadU8() returns (r: Result<Byte, Error>)
      requires Valid()
      modifies this
      ensures Valid()
      ensures r.Ok? ==> Splits(old(Rest()), [r.value], Rest())
      ensures forall b: Byte :: Starts([b], old(Rest())) ==> r.Ok? && r.value == b
      ensures r.Err? ==> r.error == InvalidEncoding
    {
      var byte := ReadExact(1);
      if byte.Err? {
        return Err(byte.error);
      }
      assert byte.value == [byte.value[0]];
      return Ok(byte.value[0]);
    }

    method ReadU32() returns (r: Result<nat, Error>)
      requires Valid()
      modifies this
      ensures Valid()
      ensures r.Ok? ==> r.value < 0x1_0000_0000 && Splits(old(Rest()), U32(r.value), Rest())
      ensures forall x: nat :: x < 0x1_0000_0000 && Starts(U32(x), old(Rest())) ==> r.Ok? && r.value == x
      ensures r.Err? ==> r.error == InvalidEncoding
    {
      ghost var rest := Rest();
      Widths();
      var word := ReadExact(4);
      if word.Err? {
        return Err(word.error);
      }
      ToFromBe(word.value);
      r := Ok(FromBe(word.value));
      forall x: nat | x < 0x1_0000_0000 && Starts(U32(x), rest)
        ensures r.value == x
      {
        FromToBe(x, 4);
      }
    }

    // Every 64-bit length is a size.
    method ReadLen() returns (r: Result<nat, Error>)
      requires Valid()
      modifies this
      ensures Valid()
      ensures r.Ok? ==> r.value < SIZE_LIMIT && Splits(old(Rest()), Len(r.value), Rest())
      ensures forall x: nat :: x < SIZE_LIMIT && Starts(Len(x), old(Rest())) ==> r.Ok? && r.value == x
      ensures r.Err? ==> r.error == InvalidEncoding
    {
      ghost var rest := Rest();
      Widths();
      var word := ReadExact(8);
      if word.Err? {
        return Err(word.error);
      }
      ToFromBe(word.value);
      r := Ok(FromBe(word.value));
      forall x: nat | x < SIZE_LIMIT && Starts(Len(x), rest)
        ensures r.value == x
      {
        FromToBe(x, 8);
      }
    }

    function Remaining(): nat
      requires Valid()
      reads this
    {
      |bytes| - cursor
    }

    // An overflowing product is refused like one past the end.
    function EnsureRemainingItems(count: nat, minItemSize: nat): (r: Result<(), Error>)
      requires Valid()
      reads this
      ensures r.Ok? <==> count * minItemSize <= |Rest()|
      ensures r.Err? ==> r.error == InvalidEncoding
    {
      if count * minItemSize < SIZE_LIMIT && count * minItemSize <= Remaining() then Ok(()) else Err(InvalidEncoding)
    }

    // Exactly the expected bytes.
    method Expect(expected: Bytes) returns (r: Result<(), Error>)
      requires Valid()
      modifies this
      ensures Valid()
      ensures r.Ok? <==> Starts(expected, old(Rest()))
      ensures r.Ok? ==> Splits(old(Rest()), expected, Rest())
      ensures r.Err? ==> r.error == InvalidEncoding
    {
      ghost var rest := Rest();
      var got := ReadExact(|expected|);
      if got.Ok? && got.value == expected {
        SplitsStarts(rest, expected, Rest());
        return Ok(());
      }
      return Err(InvalidEncoding);
    }

    method ExpectContextField(expected: Bytes) returns (r: Result<(), Error>)
      requires Valid() && |expected| < SIZE_LIMIT
      modifies this
      ensures Valid()
      ensures r.Ok? <==> Starts(ContextField(expected), old(Rest()))
      ensures r.Ok? ==> Splits(old(Rest()), ContextField(expected), Rest())
      ensures r.Err? ==> r.error == InvalidEncoding
    {
      ghost var rest := Rest();
      if Starts(ContextField(expected), rest) {
        StartsFirst(Len(|expected|), expected, rest);
      }
      var len := ReadLen();
      if len.Err? {
        return Err(len.error);
      }
      ghost var after := Rest();
      if Starts(ContextField(expected), rest) {
        StartsRest(Len(|expected|), expected, rest, after);
      }
      var got := ReadExact(len.value);
      if got.Err? {
        return Err(got.error);
      }
      if got.value == expected {
        SplitsTwice(rest, Len(|expected|), after, expected, Rest());
        SplitsStarts(rest, ContextField(expected), Rest());
        return Ok(());
      }
      return Err(InvalidEncoding);
    }

    function Finish(): (r: Result<(), Error>)
      requires Valid()
      reads this
      ensures r.Ok? <==> Rest() == []
    {
      if cursor == |bytes| then Ok(()) else Err(InvalidEncoding)
    }
  }
}
