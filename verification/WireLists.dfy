// Lists of items of one fixed width, as the codec writes and reads them.
module WireLists {
  import opened Wrappers
  import opened Bits
  import opened Core
  import opened Scalars
  import opened Wire

  function EncodeAll<V>(encode: V -> Bytes, vs: seq<V>): Bytes {
    if |vs| == 0 then [] else encode(vs[0]) + EncodeAll(encode, vs[1..])
  }

  // A length prefix and the items.
  function EncodeList<V>(encode: V -> Bytes, vs: seq<V>): Bytes {
    Len(|vs|) + EncodeAll(encode, vs)
  }

  // Every item takes the same room, and no two share an encoding.
  ghost predicate FixedWidth<V(!new)>(encode: V -> Bytes, width: nat) {
    && (forall v: V :: |encode(v)| == width)
    && (forall v: V, w: V :: encode(v) == encode(w) ==> v == w)
  }

  lemma {:induction false} AllLength<V(!new)>(encode: V -> Bytes, width: nat, vs: seq<V>)
    requires FixedWidth(encode, width)
    ensures |EncodeAll(encode, vs)| == |vs| * width
  {
    if |vs| > 0 {
      AllLength(encode, width, vs[1..]);
      NextMultiple(|vs|, width);
    }
  }

  lemma NextMultiple(n: nat, size: nat)
    requires n > 0
    ensures n * size == size + (n - 1) * size
  {
  }

  lemma {:induction false} AllPush<V>(encode: V -> Bytes, vs: seq<V>, v: V)
    ensures EncodeAll(encode, vs + [v]) == EncodeAll(encode, vs) + encode(v)
  {
    if |vs| == 0 {
      assert vs + [v] == [v] && [v][1..] == [];
    } else {
      AllPush(encode, vs[1..], v);
      assert (vs + [v])[1..] == vs[1..] + [v];
    }
  }

  // One more item of a list whose remainder starts the input.
  lemma AllPeel<V>(encode: V -> Bytes, vs: seq<V>, i: nat, s: Bytes)
    requires i < |vs| && Starts(EncodeAll(encode, vs[i..]), s)
    ensures Starts(encode(vs[i]), s)
    ensures forall rest :: Splits(s, encode(vs[i]), rest) ==> Starts(EncodeAll(encode, vs[i + 1..]), rest)
  {
    assert vs[i..][1..] == vs[i + 1..];
    StartsFirst(encode(vs[i]), EncodeAll(encode, vs[i + 1..]), s);
    forall rest | Splits(s, encode(vs[i]), rest)
      ensures Starts(EncodeAll(encode, vs[i + 1..]), rest)
    {
      StartsRest(encode(vs[i]), EncodeAll(encode, vs[i + 1..]), s, rest);
    }
  }

  // What is left of an input after its beginning.
  lemma Remainder(a: Bytes, s: Bytes) returns (rest: Bytes)
    requires Starts(a, s)
    ensures Splits(s, a, rest)
  {
    Prefixes();
    rest := s[|a|..];
  }

  // Of two beginnings of one length, there is one.
  lemma SameStart(a: Bytes, b: Bytes, s: Bytes)
    requires Starts(a, s) && Starts(b, s) && |a| == |b|
    ensures a == b
  {
    Prefixes();
    assert a == s[..|a|] == b;
  }

  // No two lists of one length begin the same input.
  lemma {:induction false} AllUnique<V(!new)>(encode: V -> Bytes, width: nat, vs: seq<V>, ws: seq<V>, s: Bytes)
    requires FixedWidth(encode, width) && |vs| == |ws| && Starts(EncodeAll(encode, vs), s) && Starts(EncodeAll(encode, ws), s)
    ensures vs == ws
  {
    if |vs| > 0 {
      assert vs[0..] == vs && ws[0..] == ws;
      AllPeel(encode, vs, 0, s);
      AllPeel(encode, ws, 0, s);
      SameStart(encode(vs[0]), encode(ws[0]), s);
      var rest := Remainder(encode(vs[0]), s);
      AllUnique(encode, width, vs[1..], ws[1..], rest);
    }
  }

  lemma LenUnique(x: nat, y: nat, s: Bytes)
    requires x < SIZE_LIMIT && y < SIZE_LIMIT && Starts(Len(x), s) && Starts(Len(y), s)
    ensures x == y
  {
    Widths();
    FromToBe(x, 8);
    FromToBe(y, 8);
    SameStart(Len(x), Len(y), s);
  }

  ghost predicate Begins<V(!new)>(encode: V -> Bytes, vs: seq<V>, s: Bytes) {
    |vs| < SIZE_LIMIT && Starts(EncodeList(encode, vs), s)
  }

  // At most one list begins an input.
  lemma ListUnique<V(!new)>(encode: V -> Bytes, width: nat, vs: seq<V>, ws: seq<V>, s: Bytes)
    requires FixedWidth(encode, width) && Begins(encode, vs, s) && Begins(encode, ws, s)
    ensures vs == ws
  {
    StartsFirst(Len(|vs|), EncodeAll(encode, vs), s);
    StartsFirst(Len(|ws|), EncodeAll(encode, ws), s);
    LenUnique(|vs|, |ws|, s);
    var rest := Remainder(Len(|vs|), s);
    StartsRest(Len(|vs|), EncodeAll(encode, vs), s, rest);
    StartsRest(Len(|vs|), EncodeAll(encode, ws), s, rest);
    AllUnique(encode, width, vs, ws, rest);
  }

  // The list that begins the input, if there is one.
  lemma ListGoal<V(!new)>(encode: V -> Bytes, width: nat, s: Bytes) returns (goal: Option<seq<V>>)
    requires FixedWidth(encode, width)
    ensures goal.Some? ==> Begins(encode, goal.value, s)
    ensures forall vs: seq<V> :: Begins(encode, vs, s) ==> goal.Some? && goal.value == vs
  {
    goal := None;
    if ws: seq<V> :| Begins(encode, ws, s) {
      goal := Some(ws);
      forall vs: seq<V> | Begins(encode, vs, s)
        ensures vs == ws
      {
        ListUnique(encode, width, vs, ws, s);
      }
    }
  }

  // The items follow the length, and leave room for themselves.
  lemma AfterLength<V(!new)>(encode: V -> Bytes, width: nat, vs: seq<V>, s: Bytes)
    requires FixedWidth(encode, width) && Begins(encode, vs, s)
    ensures Starts(Len(|vs|), s)
    ensures forall rest :: Splits(s, Len(|vs|), rest) ==> Starts(EncodeAll(encode, vs), rest) && |vs| * width <= |rest|
  {
    StartsFirst(Len(|vs|), EncodeAll(encode, vs), s);
    AllLength(encode, width, vs);
    forall rest | Splits(s, Len(|vs|), rest)
      ensures Starts(EncodeAll(encode, vs), rest) && |vs| * width <= |rest|
    {
      StartsRest(Len(|vs|), EncodeAll(encode, vs), s, rest);
      Prefixes();
    }
  }

  // A length, if that many items can still follow.
  method ReadCount<V(!new)>(reader: WireReader, ghost encode: V -> Bytes, width: nat, ghost goal: Option<seq<V>>) returns (r: Result<nat, Error>)
    requires reader.Valid() && FixedWidth(encode, width)
    requires goal.Some? ==> Begins(encode, goal.value, reader.Rest())
    modifies reader
    ensures reader.Valid()
    ensures r.Ok? ==> r.value < SIZE_LIMIT && Splits(old(reader.Rest()), Len(r.value), reader.Rest())
    ensures goal.Some? ==> r == Ok(|goal.value|) && Starts(EncodeAll(encode, goal.value), reader.Rest())
  {
    if goal.Some? {
      AfterLength(encode, width, goal.value, reader.Rest());
    }
    var len := reader.ReadLen();
    if len.Err? {
      return Err(len.error);
    }
    var enough := reader.EnsureRemainingItems(len.value, width);
    if enough.Err? {
      return Err(enough.error);
    }
    return len;
  }

  // Part way through a list: what was read, what is left, and the list to be found.
  ghost predicate SoFar<V(!new)>(encode: V -> Bytes, goal: Option<seq<V>>, start: Bytes, read: seq<V>, rest: Bytes) {
    && Splits(start, EncodeAll(encode, read), rest)
    && (goal.Some? ==> |read| <= |goal.value| && read == goal.value[..|read|] && Starts(EncodeAll(encode, goal.value[|read|..]), rest))
  }

  lemma SoFarStarts<V(!new)>(encode: V -> Bytes, goal: Option<seq<V>>, start: Bytes)
    requires goal.Some? ==> Starts(EncodeAll(encode, goal.value), start)
    ensures SoFar(encode, goal, start, [], start)
  {
    Prefixes();
    if goal.Some? {
      assert goal.value[0..] == goal.value;
    }
  }

  lemma SoFarSteps<V(!new)>(encode: V -> Bytes, goal: Option<seq<V>>, start: Bytes, read: seq<V>, before: Bytes, item: Result<V, Error>, rest: Bytes)
    requires SoFar(encode, goal, start, read, before) && (goal.Some? ==> |read| < |goal.value|)
    requires item.Ok? ==> Splits(before, encode(item.value), rest)
    requires forall v: V :: Starts(encode(v), before) ==> item.Ok? && item.value == v
    ensures goal.Some? ==> item == Ok(goal.value[|read|])
    ensures item.Ok? ==> SoFar(encode, goal, start, read + [item.value], rest)
  {
    if goal.Some? {
      AllPeel(encode, goal.value, |read|, before);
    }
    if item.Ok? {
      AllPush(encode, read, item.value);
      SplitsTwice(start, EncodeAll(encode, read), before, encode(item.value), rest);
    }
  }

  // Writing a list item by item.
  method WriteList<V(!new)>(encode: V -> Bytes, vs: seq<V>, out: Bytes) returns (extended: Bytes)
    ensures extended == out + EncodeList(encode, vs)
  {
    extended := out + Len(|vs|);
    assert vs[0..] == vs;
    for i := 0 to |vs|
      invariant extended + EncodeAll(encode, vs[i..]) == out + EncodeList(encode, vs)
    {
      assert vs[i..][1..] == vs[i + 1..];
      extended := extended + encode(vs[i]);
    }
  }

  // ----- a record's fields, one after the other -----

  function Whole(part: Bytes): Bytes {
    part
  }

  function Concat(parts: seq<Bytes>): Bytes {
    EncodeAll(Whole, parts)
  }

  ghost predicate FoldedFields(goal: Option<seq<Bytes>>, start: Bytes, read: seq<Bytes>, rest: Bytes, n: nat) {
    if n == 0 then SoFar(Whole, goal, start, read, rest) else FoldedFields(goal, start, read, rest, n - 1)
  }

  // Part way through a record. Folded, as `UnfoldFields` says.
  ghost predicate FieldsSoFar(goal: Option<seq<Bytes>>, start: Bytes, read: seq<Bytes>, rest: Bytes) {
    FoldedFields(goal, start, read, rest, q)
  }

  lemma UnfoldFields(goal: Option<seq<Bytes>>, start: Bytes, read: seq<Bytes>, rest: Bytes, n: nat)
    ensures FoldedFields(goal, start, read, rest, n) <==> SoFar(Whole, goal, start, read, rest)
  {
  }

  lemma FieldsStart(goal: Option<seq<Bytes>>, start: Bytes)
    requires goal.Some? ==> Starts(Concat(goal.value), start)
    ensures FieldsSoFar(goal, start, [], start)
  {
    SoFarStarts(Whole, goal, start);
    UnfoldFields(goal, start, [], start, q);
  }

  // The next field of the record to be found is next in the input.
  lemma FieldNext(goal: Option<seq<Bytes>>, start: Bytes, read: seq<Bytes>, before: Bytes)
    requires FieldsSoFar(goal, start, read, before) && (goal.Some? ==> |read| < |goal.value|)
    ensures goal.Some? ==> Starts(goal.value[|read|], before)
  {
    UnfoldFields(goal, start, read, before, q);
    if goal.Some? {
      AllPeel(Whole, goal.value, |read|, before);
    }
  }

  lemma FieldRead(goal: Option<seq<Bytes>>, start: Bytes, read: seq<Bytes>, before: Bytes, part: Bytes, rest: Bytes)
    requires FieldsSoFar(goal, start, read, before) && Splits(before, part, rest)
    requires goal.Some? ==> |read| < |goal.value| && part == goal.value[|read|]
    ensures FieldsSoFar(goal, start, read + [part], rest)
  {
    UnfoldFields(goal, start, read, before, q);
    UnfoldFields(goal, start, read + [part], rest, q);
    if goal.Some? {
      AllPeel(Whole, goal.value, |read|, before);
    }
    AllPush(Whole, read, part);
    SplitsTwice(start, Concat(read), before, part, rest);
  }

  lemma FieldsEnd(goal: Option<seq<Bytes>>, start: Bytes, read: seq<Bytes>, rest: Bytes)
    requires FieldsSoFar(goal, start, read, rest)
    ensures Splits(start, Concat(read), rest)
  {
    UnfoldFields(goal, start, read, rest, q);
  }

  // ----- entries under a participant index -----

  function Keyed<V>(encode: V -> Bytes): ((ParticipantIndex, V)) -> Bytes {
    (entry: (ParticipantIndex, V)) => U32(entry.0) + encode(entry.1)
  }

  lemma KeyedWidth<V(!new)>(encode: V -> Bytes, width: nat)
    requires FixedWidth(encode, width)
    ensures FixedWidth(Keyed(encode), 4 + width)
  {
    forall a: (ParticipantIndex, V), b: (ParticipantIndex, V) | Keyed(encode)(a) == Keyed(encode)(b)
      ensures a == b
    {
      assert U32(a.0) == Keyed(encode)(a)[..4] == U32(b.0);
      assert encode(a.1) == Keyed(encode)(a)[4..] == encode(b.1);
      Widths();
      FromToBe(a.0, 4);
      FromToBe(b.0, 4);
    }
  }

  // The next entry's index.
  lemma KeyedKey<V(!new)>(encode: V -> Bytes, goal: Option<seq<(ParticipantIndex, V)>>, start: Bytes, read: seq<(ParticipantIndex, V)>,
                          before: Bytes, key: Result<ParticipantIndex, Error>)
    requires SoFar(Keyed(encode), goal, start, read, before) && (goal.Some? ==> |read| < |goal.value|)
    requires forall p: ParticipantIndex :: Starts(U32(p), before) ==> key.Ok? && key.value == p
    ensures goal.Some? ==> key == Ok(goal.value[|read|].0)
  {
    if goal.Some? {
      AllPeel(Keyed(encode), goal.value, |read|, before);
      StartsFirst(U32(goal.value[|read|].0), encode(goal.value[|read|].1), before);
    }
  }

  // The next entry's value, after its index.
  lemma KeyedSteps<V(!new)>(encode: V -> Bytes, goal: Option<seq<(ParticipantIndex, V)>>, start: Bytes, read: seq<(ParticipantIndex, V)>,
                            before: Bytes, key: ParticipantIndex, middle: Bytes, item: Result<V, Error>, rest: Bytes)
    requires SoFar(Keyed(encode), goal, start, read, before) && (goal.Some? ==> |read| < |goal.value| && key == goal.value[|read|].0)
    requires Splits(before, U32(key), middle) && (item.Ok? ==> Splits(middle, encode(item.value), rest))
    requires forall v: V :: Starts(encode(v), middle) ==> item.Ok? && item.value == v
    ensures goal.Some? ==> item == Ok(goal.value[|read|].1)
    ensures item.Ok? ==> SoFar(Keyed(encode), goal, start, read + [(key, item.value)], rest)
  {
    if goal.Some? {
      AllPeel(Keyed(encode), goal.value, |read|, before);
      StartsRest(U32(key), encode(goal.value[|read|].1), before, middle);
    }
    if item.Ok? {
      SplitsTwice(before, U32(key), middle, encode(item.value), rest);
      AllPush(Keyed(encode), read, (key, item.value));
      SplitsTwice(start, EncodeAll(Keyed(encode), read), before, Keyed(encode)((key, item.value)), rest);
    }
  }
}
