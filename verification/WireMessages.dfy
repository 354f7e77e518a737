// The wire messages, their encodings and the standalone envelope: wire.rs.
//
// A value's decoder succeeds exactly on the inputs that begin with the encoding of a
// valid value, and then returns that value: each method below says both halves.
module WireMessages {
  import opened Wrappers
  import opened Bits
  import opened Scalars
  import opened Core
  import opened Dkg
  import opened Registries
  import opened Wire
  import opened WireLists

  // The group's canonical representations, and the hashes decoding calls on.
  datatype Codec = Codec(
    elementBytes: nat, scalarBytes: nat, backendId: Bytes,
    encodeElement: Element -> Bytes, decodeElement: Bytes -> Result<Element, Error>,
    encodeScalar: Scalar -> Bytes, decodeScalar: Bytes -> Result<Scalar, Error>,
    challenge: ChallengeHash, backend: Backend)
  {
    // Fixed-size representations, and only the canonical one of each value decodes.
    ghost predicate RoundTrips() {
      && (forall e: Element {:trigger encodeElement(e)} :: |encodeElement(e)| == elementBytes && decodeElement(encodeElement(e)) == Ok(e))
      && (forall b: Bytes {:trigger decodeElement(b)} :: |b| == elementBytes && decodeElement(b).Ok? ==> encodeElement(decodeElement(b).value) == b)
      && (forall s: Scalar {:trigger encodeScalar(s)} :: |encodeScalar(s)| == scalarBytes && decodeScalar(encodeScalar(s)) == Ok(s))
      && (forall b: Bytes {:trigger decodeScalar(b)} :: |b| == scalarBytes && decodeScalar(b).Ok? ==> encodeScalar(decodeScalar(b).value) == b)
      && |backendId| < SIZE_LIMIT
    }

    ghost predicate FoldedRoundTrips(n: nat) {
      if n == 0 then RoundTrips() else FoldedRoundTrips(n - 1)
    }

    // `RoundTrips`, folded: a proof unfolds it with `CanonicalMeans`.
    ghost predicate Canonical() {
      FoldedRoundTrips(q)
    }

    lemma UnfoldRoundTrips(n: nat)
      ensures FoldedRoundTrips(n) <==> RoundTrips()
    {
    }

    lemma CanonicalMeans()
      ensures Canonical() <==> RoundTrips()
    {
      UnfoldRoundTrips(q);
    }
  }

  const DIGEST_BYTES: nat := 32

  // ----- scalars, elements and indexes -----

  method ReadElement(c: Codec, reader: WireReader) returns (r: Result<Element, Error>)
    requires reader.Valid() && c.Canonical()
    modifies reader
    ensures reader.Valid()
    ensures r.Ok? ==> Splits(old(reader.Rest()), c.encodeElement(r.value), reader.Rest())
    ensures forall e: Element :: Starts(c.encodeElement(e), old(reader.Rest())) ==> r.Ok? && r.value == e
  {
    c.CanonicalMeans();
    var repr := reader.ReadExact(c.elementBytes);
    if repr.Err? {
      return Err(repr.error);
    }
    r := c.decodeElement(repr.value);
  }

  method ReadScalar(c: Codec, reader: WireReader) returns (r: Result<Scalar, Error>)
    requires reader.Valid() && c.Canonical()
    modifies reader
    ensures reader.Valid()
    ensures r.Ok? ==> Splits(old(reader.Rest()), c.encodeScalar(r.value), reader.Rest())
    ensures forall s: Scalar :: Starts(c.encodeScalar(s), old(reader.Rest())) ==> r.Ok? && r.value == s
  {
    c.CanonicalMeans();
    var repr := reader.ReadExact(c.scalarBytes);
    if repr.Err? {
      return Err(repr.error);
    }
    r := c.decodeScalar(repr.value);
  }

  function NewParticipantIndex(value: nat): Result<ParticipantIndex, Error>
    requires value < 0x1_0000_0000
  {
    if value == 0 then Err(ZeroParticipantIndex) else Ok(value)
  }

  method ReadIndex(reader: WireReader) returns (r: Result<ParticipantIndex, Error>)
    requires reader.Valid()
    modifies reader
    ensures reader.Valid()
    ensures r.Ok? ==> Splits(old(reader.Rest()), U32(r.value), reader.Rest())
    ensures forall p: ParticipantIndex :: Starts(U32(p), old(reader.Rest())) ==> r.Ok? && r.value == p
    ensures Starts(U32(0), old(reader.Rest())) ==> r == Err(ZeroParticipantIndex)
  {
    var word := reader.ReadU32();
    if word.Err? {
      return Err(word.error);
    }
    r := NewParticipantIndex(word.value);
  }

  function EnsureIncreasing(last: Option<ParticipantIndex>, next: ParticipantIndex): Result<Option<ParticipantIndex>, Error> {
    if last.Some? && last.value >= next then Err(DuplicateParticipantIndex(next)) else Ok(Some(next))
  }

  // ----- pairs of an element and a scalar -----

  function EncodePair(c: Codec, e: Element, s: Scalar): Bytes {
    c.encodeElement(e) + c.encodeScalar(s)
  }

  method ReadPair(c: Codec, reader: WireReader) returns (r: Result<(Element, Scalar), Error>)
    requires reader.Valid() && c.Canonical()
    modifies reader
    ensures reader.Valid()
    ensures r.Ok? ==> Splits(old(reader.Rest()), EncodePair(c, r.value.0, r.value.1), reader.Rest())
    ensures forall e: Element, s: Scalar :: Starts(EncodePair(c, e, s), old(reader.Rest())) ==> r.Ok? && r.value == (e, s)
  {
    ghost var rest := reader.Rest();
    forall e: Element, s: Scalar | Starts(EncodePair(c, e, s), rest)
      ensures Starts(c.encodeElement(e), rest)
    {
      StartsFirst(c.encodeElement(e), c.encodeScalar(s), rest);
    }
    var e := ReadElement(c, reader);
    if e.Err? {
      return Err(e.error);
    }
    ghost var middle := reader.Rest();
    forall s: Scalar | Starts(EncodePair(c, e.value, s), rest)
      ensures Starts(c.encodeScalar(s), middle)
    {
      StartsRest(c.encodeElement(e.value), c.encodeScalar(s), rest, middle);
    }
    var s := ReadScalar(c, reader);
    if s.Err? {
      return Err(s.error);
    }
    SplitsTwice(rest, c.encodeElement(e.value), middle, c.encodeScalar(s.value), reader.Rest());
    return Ok((e.value, s.value));
  }

  function EncodeShare(c: Codec, share: EncryptedShare): Bytes {
    EncodePair(c, share.padCommitment, share.encryptedShare)
  }

  method ReadShare(c: Codec, reader: WireReader) returns (r: Result<EncryptedShare, Error>)
    requires reader.Valid() && c.Canonical()
    modifies reader
    ensures reader.Valid()
    ensures r.Ok? ==> Splits(old(reader.Rest()), EncodeShare(c, r.value), reader.Rest())
    ensures forall v: EncryptedShare :: Starts(EncodeShare(c, v), old(reader.Rest())) ==> r.Ok? && r.value == v
  {
    var pair := ReadPair(c, reader);
    if pair.Err? {
      return Err(pair.error);
    }
    return Ok(EncryptedShare(pair.value.0, pair.value.1));
  }

  function EncodeProof(c: Codec, proof: IdentityKeyProof): Bytes {
    EncodePair(c, proof.noncePoint, proof.response)
  }

  method ReadProof(c: Codec, reader: WireReader) returns (r: Result<IdentityKeyProof, Error>)
    requires reader.Valid() && c.Canonical()
    modifies reader
    ensures reader.Valid()
    ensures r.Ok? ==> Splits(old(reader.Rest()), EncodeProof(c, r.value), reader.Rest())
    ensures forall v: IdentityKeyProof :: Starts(EncodeProof(c, v), old(reader.Rest())) ==> r.Ok? && r.value == v
  {
    var pair := ReadPair(c, reader);
    if pair.Err? {
      return Err(pair.error);
    }
    return Ok(IdentityKeyProof(pair.value.0, pair.value.1));
  }

  // ----- commitments -----

  lemma ElementWidth(c: Codec)
    requires c.Canonical()
    ensures FixedWidth(c.encodeElement, c.elementBytes)
  {
    c.CanonicalMeans();
    forall v: Element, w: Element | c.encodeElement(v) == c.encodeElement(w)
      ensures v == w
    {
      assert c.decodeElement(c.encodeElement(v)) == c.decodeElement(c.encodeElement(w));
    }
  }

  lemma ScalarWidth(c: Codec)
    requires c.Canonical()
    ensures FixedWidth(c.encodeScalar, c.scalarBytes)
  {
    c.CanonicalMeans();
    forall v: Scalar, w: Scalar | c.encodeScalar(v) == c.encodeScalar(w)
      ensures v == w
    {
      assert c.decodeScalar(c.encodeScalar(v)) == c.decodeScalar(c.encodeScalar(w));
    }
  }

  predicate ValidCommitment(es: seq<Element>) {
    0 < |es| < SIZE_LIMIT
  }

  function EncodeCommitment(c: Codec, es: seq<Element>): Bytes {
    EncodeList(c.encodeElement, es)
  }

  method ReadElements(c: Codec, reader: WireReader, len: nat, ghost goal: Option<seq<Element>>) returns (r: Result<seq<Element>, Error>)
    requires reader.Valid() && c.Canonical()
    requires goal.Some? ==> |goal.value| == len && Starts(EncodeAll(c.encodeElement, goal.value), reader.Rest())
    modifies reader
    ensures reader.Valid()
    ensures r.Ok? ==> |r.value| == len && Splits(old(reader.Rest()), EncodeAll(c.encodeElement, r.value), reader.Rest())
    ensures goal.Some? ==> r == Ok(goal.value)
  {
    ghost var start := reader.Rest();
    var coefficients := [];
    SoFarStarts(c.encodeElement, goal, start);
    for i := 0 to len
      invariant reader.Valid() && |coefficients| == i
      invariant SoFar(c.encodeElement, goal, start, coefficients, reader.Rest())
    {
      ghost var before := reader.Rest();
      var e := ReadElement(c, reader);
      SoFarSteps(c.encodeElement, goal, start, coefficients, before, e, reader.Rest());
      if e.Err? {
        return Err(e.error);
      }
      coefficients := coefficients + [e.value];
    }
    assert goal.Some? ==> goal.value[..len] == goal.value;
    return Ok(coefficients);
  }

  method ReadCommitment(c: Codec, reader: WireReader) returns (r: Result<seq<Element>, Error>)
    requires reader.Valid() && c.Canonical()
    modifies reader
    ensures reader.Valid()
    ensures r.Ok? ==> ValidCommitment(r.value) && Splits(old(reader.Rest()), EncodeCommitment(c, r.value), reader.Rest())
    ensures forall vs: seq<Element> :: ValidCommitment(vs) && Starts(EncodeCommitment(c, vs), old(reader.Rest())) ==> r.Ok? && r.value == vs
  {
    ghost var rest := reader.Rest();
    ElementWidth(c);
    ghost var goal := ListGoal(c.encodeElement, c.elementBytes, rest);
    assert forall vs: seq<Element> :: ValidCommitment(vs) && Starts(EncodeCommitment(c, vs), rest) ==> Begins(c.encodeElement, vs, rest);
    var len := ReadCount(reader, c.encodeElement, c.elementBytes, goal);
    if len.Err? {
      return Err(len.error);
    }
    ghost var items := reader.Rest();
    var coefficients := ReadElements(c, reader, len.value, goal);
    if coefficients.Err? {
      return Err(coefficients.error);
    }
    if |coefficients.value| == 0 {
      return Err(EmptyCommitment);
    }
    SplitsTwice(rest, Len(len.value), items, EncodeAll(c.encodeElement, coefficients.value), reader.Rest());
    return coefficients;
  }

  // ----- encrypted shares -----

  function ShareEncoder(c: Codec): EncryptedShare -> Bytes {
    (share: EncryptedShare) => EncodeShare(c, share)
  }

  lemma PairUnique(c: Codec, e: Element, s: Scalar, e': Element, s': Scalar)
    requires c.Canonical()
    ensures |EncodePair(c, e, s)| == c.elementBytes + c.scalarBytes
    ensures EncodePair(c, e, s) == EncodePair(c, e', s') ==> e == e' && s == s'
  {
    ElementWidth(c);
    ScalarWidth(c);
    if EncodePair(c, e, s) == EncodePair(c, e', s') {
      assert c.encodeElement(e) == EncodePair(c, e, s)[..c.elementBytes] == c.encodeElement(e');
      assert c.encodeScalar(s) == EncodePair(c, e, s)[c.elementBytes..] == c.encodeScalar(s');
    }
  }

  lemma ShareWidth(c: Codec)
    requires c.Canonical()
    ensures FixedWidth(ShareEncoder(c), c.elementBytes + c.scalarBytes)
  {
    forall v: EncryptedShare, w: EncryptedShare
      ensures |ShareEncoder(c)(v)| == c.elementBytes + c.scalarBytes
      ensures ShareEncoder(c)(v) == ShareEncoder(c)(w) ==> v == w
    {
      PairUnique(c, v.padCommitment, v.encryptedShare, w.padCommitment, w.encryptedShare);
    }
  }

  // The map's entries in ascending order.
  function EncodeShares(c: Codec, shares: EncryptedShares): Bytes {
    EncodeList(Keyed(ShareEncoder(c)), Listed(shares))
  }

  // What the entries add up to must be an ascending list: `EnsureIncreasing` at work.
  ghost predicate LastOf<V>(read: Pairs<V>, last: Option<ParticipantIndex>) {
    last == if |read| == 0 then None else Some(read[|read| - 1].0)
  }

  lemma Increases<V>(read: Pairs<V>, last: Option<ParticipantIndex>, key: ParticipantIndex, v: V)
    requires IncreasingKeys(read) && LastOf(read, last)
    ensures EnsureIncreasing(last, key).Ok? <==> IncreasingKeys(read + [(key, v)])
  {
    var more := read + [(key, v)];
    var n := |read|;
    if EnsureIncreasing(last, key).Ok? {
      forall i | 0 <= i < n
        ensures more[i].0 < key
      {
        assert i < n - 1 ==> read[i].0 < read[n - 1].0;
      }
    } else {
      assert more[n - 1].0 >= more[n].0;
    }
  }

  ghost predicate Ascends<V>(goal: Option<Pairs<V>>) {
    goal.Some? ==> IncreasingKeys(goal.value)
  }

  // The next key of an ascending list passes the check.
  lemma GoalIncreases<V>(goal: Option<Pairs<V>>, read: Pairs<V>, last: Option<ParticipantIndex>)
    requires Ascends(goal) && goal.Some? && |read| < |goal.value| && read == goal.value[..|read|] && LastOf(read, last)
    ensures EnsureIncreasing(last, goal.value[|read|].0).Ok?
  {
  }

  method ReadShareEntries(c: Codec, reader: WireReader, len: nat, ghost goal: Option<Pairs<EncryptedShare>>)
    returns (r: Result<EncryptedShares, Error>, ghost read: Pairs<EncryptedShare>)
    requires reader.Valid() && c.Canonical() && Ascends(goal)
    requires goal.Some? ==> |goal.value| == len && Starts(EncodeAll(Keyed(ShareEncoder(c)), goal.value), reader.Rest())
    modifies reader
    ensures reader.Valid()
    ensures r.Ok? ==> |read| == len && IncreasingKeys(read) && r.value == FromPairs(read)
    ensures r.Ok? ==> Splits(old(reader.Rest()), EncodeAll(Keyed(ShareEncoder(c)), read), reader.Rest())
    ensures goal.Some? ==> r.Ok? && read == goal.value
  {
    ghost var start := reader.Rest();
    var shares: EncryptedShares := map[];
    var last := None;
    read := [];
    SoFarStarts(Keyed(ShareEncoder(c)), goal, start);
    for i := 0 to len
      invariant reader.Valid() && |read| == i && IncreasingKeys(read) && LastOf(read, last)
      invariant shares == FromPairs(read)
      invariant SoFar(Keyed(ShareEncoder(c)), goal, start, read, reader.Rest())
    {
      ghost var before := reader.Rest();
      var receiver := ReadIndex(reader);
      KeyedKey(ShareEncoder(c), goal, start, read, before, receiver);
      if receiver.Err? {
        return Err(receiver.error), read;
      }
      var increasing := EnsureIncreasing(last, receiver.value);
      if goal.Some? {
        GoalIncreases(goal, read, last);
      }
      if increasing.Err? {
        return Err(increasing.error), read;
      }
      ghost var middle := reader.Rest();
      var share := ReadShare(c, reader);
      KeyedSteps(ShareEncoder(c), goal, start, read, before, receiver.value, middle, share, reader.Rest());
      if share.Err? {
        return Err(share.error), read;
      }
      Increases(read, last, receiver.value, share.value);
      last := increasing.value;
      read := read + [(receiver.value, share.value)];
      shares := shares[receiver.value := share.value];
    }
    return Ok(shares), read;
  }

  method ReadShares(c: Codec, reader: WireReader) returns (r: Result<EncryptedShares, Error>)
    requires reader.Valid() && c.Canonical()
    modifies reader
    ensures reader.Valid()
    ensures r.Ok? ==> |r.value| < SIZE_LIMIT && Splits(old(reader.Rest()), EncodeShares(c, r.value), reader.Rest())
    ensures forall m: EncryptedShares :: |m| < SIZE_LIMIT && Starts(EncodeShares(c, m), old(reader.Rest())) ==> r.Ok? && r.value == m
  {
    ghost var rest := reader.Rest();
    ShareWidth(c);
    ghost var goal := MapGoal(ShareEncoder(c), c.elementBytes + c.scalarBytes, rest);
    var len := ReadCount(reader, Keyed(ShareEncoder(c)), 4 + c.elementBytes + c.scalarBytes, goal);
    if len.Err? {
      return Err(len.error);
    }
    ghost var items := reader.Rest();
    ghost var read;
    r, read := ReadShareEntries(c, reader, len.value, goal);
    if r.Ok? {
      ListedFromPairs(read);
      SplitsTwice(rest, Len(len.value), items, EncodeAll(Keyed(ShareEncoder(c)), read), reader.Rest());
    }
  }

  // The ascending list that begins the input, if there is one, and the map it lists.
  lemma MapGoal<V(!new)>(encode: V -> Bytes, width: nat, s: Bytes) returns (goal: Option<Pairs<V>>)
    requires FixedWidth(encode, width)
    ensures FixedWidth(Keyed(encode), 4 + width)
    ensures Ascends(goal) && (goal.Some? ==> Begins(Keyed(encode), goal.value, s))
    ensures forall m: map<ParticipantIndex, V> :: Begins(Keyed(encode), Listed(m), s) ==>
      goal.Some? && goal.value == Listed(m) && FromPairs(goal.value) == m
  {
    KeyedWidth(encode, width);
    goal := ListGoal(Keyed(encode), 4 + width, s);
    forall m: map<ParticipantIndex, V> | Begins(Keyed(encode), Listed(m), s)
      ensures goal.Some? && goal.value == Listed(m) && FromPairs(goal.value) == m && IncreasingKeys(goal.value)
    {
      ListedIncreases(m);
      FromPairsListed(m);
    }
    if goal.Some? && !IncreasingKeys(goal.value) {
      goal := None;
    }
  }

  // ----- the registry -----

  function EncodeRegistered(c: Codec, v: Registered): Bytes {
    c.encodeElement(v.publicKey) + EncodeProof(c, v.proof)
  }

  function RegisteredEncoder(c: Codec): Registered -> Bytes {
    (v: Registered) => EncodeRegistered(c, v)
  }

  function EncodeRegistry(c: Codec, registry: Registry): Bytes {
    EncodeList(Keyed(RegisteredEncoder(c)), Listed(registry))
  }

  predicate ValidRegistry(c: Codec, registry: Registry) {
    |registry| < SIZE_LIMIT && Acceptable(c.challenge, Listed(registry))
  }

  // What the registry's constructor accepts, in whatever order it was given, is a value
  // that goes over the wire.
  lemma AcceptedRegistryIsValid(c: Codec, entries: Pairs<Registered>)
    requires Acceptable(c.challenge, entries) && |FromPairs(entries)| < SIZE_LIMIT
    ensures ValidRegistry(c, FromPairs(entries))
  {
    var registry := FromPairs(entries);
    var listed := Listed(registry);
    ListedIncreases(registry);
    forall i, j | 0 <= i < j < |listed|
      ensures listed[i].1.publicKey != Identity && VerifyIdentity(c.challenge, listed[i].1.proof, listed[i].1.publicKey).Ok?
      ensures listed[j].1.publicKey != Identity && VerifyIdentity(c.challenge, listed[j].1.proof, listed[j].1.publicKey).Ok?
      ensures listed[i].0 != listed[j].0 && listed[i].1.publicKey != listed[j].1.publicKey && listed[i].1.publicKey != Negated(listed[j].1.publicKey)
    {
      var a := ListedEntry(entries, i);
      var b := ListedEntry(entries, j);
      NegationSymmetric(listed[i].1.publicKey, listed[j].1.publicKey);
    }
    forall i | 0 <= i < |listed|
      ensures listed[i].1.publicKey != Identity && VerifyIdentity(c.challenge, listed[i].1.proof, listed[i].1.publicKey).Ok?
    {
      var a := ListedEntry(entries, i);
    }
  }

  lemma ListedEntry(entries: Pairs<Registered>, i: nat) returns (k: nat)
    requires i < |Listed(FromPairs(entries))|
    ensures k < |entries| && entries[k] == Listed(FromPairs(entries))[i]
  {
    var (p, v) := Listed(FromPairs(entries))[i];
    InOrderFacts(FromPairs(entries).Keys);
    assert InOrder(FromPairs(entries).Keys)[i] == p;
    assert p in InOrder(FromPairs(entries).Keys);
    k := EntryOf(entries, p);
  }

  lemma {:induction false} EntryOf(entries: Pairs<Registered>, p: ParticipantIndex) returns (k: nat)
    requires p in FromPairs(entries)
    ensures k < |entries| && entries[k] == (p, FromPairs(entries)[p])
    decreases |entries|
  {
    k := |entries| - 1;
    if entries[k].0 != p {
      k := EntryOf(entries[..k], p);
    }
  }

  lemma NegationSymmetric(x: Element, y: Element)
    ensures x == Negated(y) <==> y == Negated(x)
  {
    if x == Negated(y) {
      RedSub(0, 0, x, 0 - y);
    } else if y == Negated(x) {
      RedSub(0, 0, y, 0 - x);
    }
  }

  lemma RegisteredWidth(c: Codec)
    requires c.Canonical()
    ensures FixedWidth(RegisteredEncoder(c), 2 * c.elementBytes + c.scalarBytes)
  {
    ElementWidth(c);
    forall v: Registered, w: Registered
      ensures |RegisteredEncoder(c)(v)| == 2 * c.elementBytes + c.scalarBytes
      ensures RegisteredEncoder(c)(v) == RegisteredEncoder(c)(w) ==> v == w
    {
      PairUnique(c, v.proof.noncePoint, v.proof.response, w.proof.noncePoint, w.proof.response);
      if EncodeRegistered(c, v) == EncodeRegistered(c, w) {
        assert c.encodeElement(v.publicKey) == EncodeRegistered(c, v)[..c.elementBytes] == c.encodeElement(w.publicKey);
        assert EncodeProof(c, v.proof) == EncodeRegistered(c, v)[c.elementBytes..] == EncodeProof(c, w.proof);
      }
    }
  }

  method ReadRegistered(c: Codec, reader: WireReader) returns (r: Result<Registered, Error>)
    requires reader.Valid() && c.Canonical()
    modifies reader
    ensures reader.Valid()
    ensures r.Ok? ==> Splits(old(reader.Rest()), EncodeRegistered(c, r.value), reader.Rest())
    ensures forall v: Registered :: Starts(EncodeRegistered(c, v), old(reader.Rest())) ==> r.Ok? && r.value == v
  {
    ghost var rest := reader.Rest();
    forall v: Registered | Starts(EncodeRegistered(c, v), rest)
      ensures Starts(c.encodeElement(v.publicKey), rest)
    {
      StartsFirst(c.encodeElement(v.publicKey), EncodeProof(c, v.proof), rest);
    }
    var publicKey := ReadElement(c, reader);
    if publicKey.Err? {
      return Err(publicKey.error);
    }
    ghost var middle := reader.Rest();
    forall v: Registered | Starts(EncodeRegistered(c, v), rest)
      ensures Starts(EncodeProof(c, v.proof), middle)
    {
      StartsRest(c.encodeElement(v.publicKey), EncodeProof(c, v.proof), rest, middle);
    }
    var proof := ReadProof(c, reader);
    if proof.Err? {
      return Err(proof.error);
    }
    SplitsTwice(rest, c.encodeElement(publicKey.value), middle, EncodeProof(c, proof.value), reader.Rest());
    return Ok(Registered(publicKey.value, proof.value));
  }

  method ReadRegistrations(c: Codec, reader: WireReader, len: nat, ghost goal: Option<Pairs<Registered>>)
    returns (r: Result<Pairs<Registered>, Error>)
    requires reader.Valid() && c.Canonical() && Ascends(goal)
    requires goal.Some? ==> |goal.value| == len && Starts(EncodeAll(Keyed(RegisteredEncoder(c)), goal.value), reader.Rest())
    modifies reader
    ensures reader.Valid()
    ensures r.Ok? ==> |r.value| == len && IncreasingKeys(r.value)
    ensures r.Ok? ==> Splits(old(reader.Rest()), EncodeAll(Keyed(RegisteredEncoder(c)), r.value), reader.Rest())
    ensures goal.Some? ==> r == Ok(goal.value)
  {
    ghost var start := reader.Rest();
    var entries: Pairs<Registered> := [];
    var last := None;
    SoFarStarts(Keyed(RegisteredEncoder(c)), goal, start);
    for i := 0 to len
      invariant reader.Valid() && |entries| == i && IncreasingKeys(entries) && LastOf(entries, last)
      invariant SoFar(Keyed(RegisteredEncoder(c)), goal, start, entries, reader.Rest())
    {
      ghost var before := reader.Rest();
      var participant := ReadIndex(reader);
      KeyedKey(RegisteredEncoder(c), goal, start, entries, before, participant);
      if participant.Err? {
        return Err(participant.error);
      }
      var increasing := EnsureIncreasing(last, participant.value);
      if goal.Some? {
        GoalIncreases(goal, entries, last);
      }
      if increasing.Err? {
        return Err(increasing.error);
      }
      ghost var middle := reader.Rest();
      var registered := ReadRegistered(c, reader);
      KeyedSteps(RegisteredEncoder(c), goal, start, entries, before, participant.value, middle, registered, reader.Rest());
      if registered.Err? {
        return Err(registered.error);
      }
      Increases(entries, last, participant.value, registered.value);
      last := increasing.value;
      entries := entries + [(participant.value, registered.value)];
    }
    assert goal.Some? ==> goal.value[..len] == goal.value;
    return Ok(entries);
  }

  // Decoding a registry checks its keys and proofs again.
  method ReadRegistry(c: Codec, reader: WireReader) returns (r: Result<Registry, Error>)
    requires reader.Valid() && c.Canonical()
    modifies reader
    ensures reader.Valid()
    ensures r.Ok? ==> ValidRegistry(c, r.value) && Splits(old(reader.Rest()), EncodeRegistry(c, r.value), reader.Rest())
    ensures forall m: Registry :: ValidRegistry(c, m) && Starts(EncodeRegistry(c, m), old(reader.Rest())) ==> r.Ok? && r.value == m
  {
    ghost var rest := reader.Rest();
    RegisteredWidth(c);
    ghost var goal := MapGoal(RegisteredEncoder(c), 2 * c.elementBytes + c.scalarBytes, rest);
    var len := ReadCount(reader, Keyed(RegisteredEncoder(c)), 4 + 2 * c.elementBytes + c.scalarBytes, goal);
    if len.Err? {
      return Err(len.error);
    }
    ghost var items := reader.Rest();
    var entries := ReadRegistrations(c, reader, len.value, goal);
    if entries.Err? {
      return Err(entries.error);
    }
    ListedFromPairs(entries.value);
    SplitsTwice(rest, Len(len.value), items, EncodeAll(Keyed(RegisteredEncoder(c)), entries.value), reader.Rest());
    r := NewRegistry(c.challenge, entries.value);
  }

  // ----- records -----

  method ReadDigest(reader: WireReader) returns (r: Result<Bytes, Error>)
    requires reader.Valid()
    modifies reader
    ensures reader.Valid()
    ensures r.Ok? ==> |r.value| == DIGEST_BYTES && Splits(old(reader.Rest()), r.value, reader.Rest())
    ensures forall v :: |v| == DIGEST_BYTES && Starts(v, old(reader.Rest())) ==> r.Ok? && r.value == v
  {
    r := reader.ReadArray(DIGEST_BYTES);
  }

  // Length-delimited bytes.
  method ReadBlob(reader: WireReader) returns (r: Result<Bytes, Error>)
    requires reader.Valid()
    modifies reader
    ensures reader.Valid()
    ensures r.Ok? ==> |r.value| < SIZE_LIMIT && Splits(old(reader.Rest()), ContextField(r.value), reader.Rest())
    ensures forall v :: |v| < SIZE_LIMIT && Starts(ContextField(v), old(reader.Rest())) ==> r.Ok? && r.value == v
  {
    ghost var rest := reader.Rest();
    ghost var goal := BlobGoal(rest);
    var len := reader.ReadLen();
    if len.Err? {
      return Err(len.error);
    }
    ghost var middle := reader.Rest();
    if goal.Some? {
      StartsRest(Len(|goal.value|), goal.value, rest, middle);
    }
    r := reader.ReadExact(len.value);
    if r.Ok? {
      SplitsTwice(rest, Len(len.value), middle, r.value, reader.Rest());
    }
  }

  // The length-delimited bytes that begin the input, if there are any.
  lemma BlobGoal(s: Bytes) returns (goal: Option<Bytes>)
    ensures goal.Some? ==> |goal.value| < SIZE_LIMIT && Starts(ContextField(goal.value), s) && Starts(Len(|goal.value|), s)
    ensures forall v :: |v| < SIZE_LIMIT && Starts(ContextField(v), s) ==> goal.Some? && goal.value == v
  {
    goal := None;
    if w :| |w| < SIZE_LIMIT && Starts(ContextField(w), s) {
      goal := Some(w);
      StartsFirst(Len(|w|), w, s);
      forall v | |v| < SIZE_LIMIT && Starts(ContextField(v), s)
        ensures v == w
      {
        BlobUnique(v, w, s);
      }
    }
  }

  lemma BlobUnique(v: Bytes, w: Bytes, s: Bytes)
    requires |v| < SIZE_LIMIT && |w| < SIZE_LIMIT && Starts(ContextField(v), s) && Starts(ContextField(w), s)
    ensures v == w
  {
    StartsFirst(Len(|v|), v, s);
    StartsFirst(Len(|w|), w, s);
    LenUnique(|v|, |w|, s);
    var rest := Remainder(Len(|v|), s);
    StartsRest(Len(|v|), v, s, rest);
    StartsRest(Len(|v|), w, s, rest);
    SameStart(v, w, rest);
  }

  // A setup file: a configuration with the proofs of its registry.
  datatype SetupConfig = SetupConfig(threshold: nat, sessionId: Bytes, beta: Scalar, registry: Registry)

  predicate ValidConfig(c: Codec, v: SetupConfig) {
    && v.threshold < SIZE_LIMIT && |v.sessionId| == DIGEST_BYTES
    && 1 <= v.threshold <= |v.registry| && ValidRegistry(c, v.registry)
  }

  function NewConfig(threshold: nat, sessionId: Bytes, beta: Scalar, registry: Registry): Result<SetupConfig, Error> {
    if threshold == 0 || threshold > |registry| then Err(InvalidThreshold(threshold, |registry|))
    else Ok(SetupConfig(threshold, sessionId, beta, registry))
  }

  function ConfigFields(c: Codec, v: SetupConfig): seq<Bytes> {
    [Len(v.threshold), v.sessionId, c.encodeScalar(v.beta), EncodeRegistry(c, v.registry)]
  }

  function EncodeConfig(c: Codec, v: SetupConfig): Bytes {
    Concat(ConfigFields(c, v))
  }

  lemma ConfigFieldsFrom(c: Codec, v: SetupConfig)
    ensures [] + [Len(v.threshold)] + [v.sessionId] + [c.encodeScalar(v.beta)] + [EncodeRegistry(c, v.registry)] == ConfigFields(c, v)
  {
  }

  ghost predicate ConfigBegins(c: Codec, v: SetupConfig, s: Bytes) {
    ValidConfig(c, v) && Starts(EncodeConfig(c, v), s)
  }

  method ReadConfig(c: Codec, reader: WireReader, ghost goal: Option<SetupConfig>) returns (r: Result<SetupConfig, Error>)
    requires reader.Valid() && c.Canonical()
    requires goal.Some? ==> ConfigBegins(c, goal.value, reader.Rest())
    modifies reader
    ensures reader.Valid()
    ensures r.Ok? ==> ValidConfig(c, r.value) && Splits(old(reader.Rest()), EncodeConfig(c, r.value), reader.Rest())
    ensures goal.Some? ==> r == Ok(goal.value)
  {
    ghost var start := reader.Rest();
    ghost var fields := if goal.Some? then Some(ConfigFields(c, goal.value)) else None;
    FieldsStart(fields, start);
    ghost var read: seq<Bytes>, rest := [], start;
    FieldNext(fields, start, read, rest);
    var threshold := reader.ReadLen();
    if threshold.Err? {
      return Err(threshold.error);
    }
    FieldRead(fields, start, read, rest, Len(threshold.value), reader.Rest());
    read, rest := read + [Len(threshold.value)], reader.Rest();
    FieldNext(fields, start, read, rest);
    var sessionId := ReadDigest(reader);
    if sessionId.Err? {
      return Err(sessionId.error);
    }
    FieldRead(fields, start, read, rest, sessionId.value, reader.Rest());
    read, rest := read + [sessionId.value], reader.Rest();
    FieldNext(fields, start, read, rest);
    var beta := ReadScalar(c, reader);
    if beta.Err? {
      return Err(beta.error);
    }
    FieldRead(fields, start, read, rest, c.encodeScalar(beta.value), reader.Rest());
    read, rest := read + [c.encodeScalar(beta.value)], reader.Rest();
    FieldNext(fields, start, read, rest);
    var registry := ReadRegistry(c, reader);
    if registry.Err? {
      return Err(registry.error);
    }
    FieldRead(fields, start, read, rest, EncodeRegistry(c, registry.value), reader.Rest());
    FieldsEnd(fields, start, read + [EncodeRegistry(c, registry.value)], reader.Rest());
    ConfigFieldsFrom(c, SetupConfig(threshold.value, sessionId.value, beta.value, registry.value));
    r := NewConfig(threshold.value, sessionId.value, beta.value, registry.value);
  }

  predicate ValidMessage(m: DealerMessage) {
    && |m.sessionId| == DIGEST_BYTES && |m.registryRoot| == DIGEST_BYTES && |m.nonce| == DIGEST_BYTES
    && ValidCommitment(m.commitment) && |m.encryptedShares| < SIZE_LIMIT && |m.proof| < SIZE_LIMIT
  }

  function MessageFields(c: Codec, m: DealerMessage): seq<Bytes> {
    [m.sessionId, m.registryRoot, U32(m.dealer), m.nonce, EncodeCommitment(c, m.commitment), EncodeShares(c, m.encryptedShares), ContextField(m.proof)]
  }

  // The transcript root is not sent.
  function EncodeMessage(c: Codec, m: DealerMessage): Bytes {
    Concat(MessageFields(c, m))
  }

  // The message with its root computed from the rest.
  function Rooted(c: Codec, m: DealerMessage): DealerMessage {
    m.(transcriptRoot := RootOf(c.backend, m))
  }

  ghost predicate MessageBegins(c: Codec, m: DealerMessage, s: Bytes) {
    ValidMessage(m) && Starts(EncodeMessage(c, m), s)
  }

  datatype Header = Header(sessionId: Bytes, registryRoot: Bytes, dealer: ParticipantIndex, nonce: Bytes)

  function HeaderOf(m: DealerMessage): Header {
    Header(m.sessionId, m.registryRoot, m.dealer, m.nonce)
  }

  function HeaderFields(h: Header): seq<Bytes> {
    [h.sessionId, h.registryRoot, U32(h.dealer), h.nonce]
  }

  lemma HeaderFieldsFrom(h: Header)
    ensures [] + [h.sessionId] + [h.registryRoot] + [U32(h.dealer)] + [h.nonce] == HeaderFields(h)
  {
  }

  ghost function GoalFields(c: Codec, goal: Option<DealerMessage>): Option<seq<Bytes>> {
    if goal.Some? then Some(MessageFields(c, goal.value)) else None
  }

  method ReadHeader(c: Codec, reader: WireReader, ghost goal: Option<DealerMessage>) returns (r: Result<Header, Error>)
    requires reader.Valid()
    requires goal.Some? ==> MessageBegins(c, goal.value, reader.Rest())
    modifies reader
    ensures reader.Valid()
    ensures r.Ok? ==> |r.value.sessionId| == DIGEST_BYTES && |r.value.registryRoot| == DIGEST_BYTES && |r.value.nonce| == DIGEST_BYTES
    ensures r.Ok? ==> FieldsSoFar(GoalFields(c, goal), old(reader.Rest()), HeaderFields(r.value), reader.Rest())
    ensures goal.Some? ==> r == Ok(HeaderOf(goal.value))
  {
    ghost var start, fields := reader.Rest(), GoalFields(c, goal);
    FieldsStart(fields, start);
    ghost var read: seq<Bytes>, rest := [], start;
    FieldNext(fields, start, read, rest);
    var sessionId := ReadDigest(reader);
    if sessionId.Err? {
      return Err(sessionId.error);
    }
    FieldRead(fields, start, read, rest, sessionId.value, reader.Rest());
    read, rest := read + [sessionId.value], reader.Rest();
    FieldNext(fields, start, read, rest);
    var registryRoot := ReadDigest(reader);
    if registryRoot.Err? {
      return Err(registryRoot.error);
    }
    FieldRead(fields, start, read, rest, registryRoot.value, reader.Rest());
    read, rest := read + [registryRoot.value], reader.Rest();
    FieldNext(fields, start, read, rest);
    var dealer := ReadIndex(reader);
    if dealer.Err? {
      return Err(dealer.error);
    }
    FieldRead(fields, start, read, rest, U32(dealer.value), reader.Rest());
    read, rest := read + [U32(dealer.value)], reader.Rest();
    FieldNext(fields, start, read, rest);
    var nonce := ReadDigest(reader);
    if nonce.Err? {
      return Err(nonce.error);
    }
    FieldRead(fields, start, read, rest, nonce.value, reader.Rest());
    r := Ok(Header(sessionId.value, registryRoot.value, dealer.value, nonce.value));
    HeaderFieldsFrom(r.value);
  }

  lemma MessageFieldsFrom(c: Codec, m: DealerMessage)
    ensures HeaderFields(HeaderOf(m)) + [EncodeCommitment(c, m.commitment)] + [EncodeShares(c, m.encryptedShares)] + [ContextField(m.proof)]
         == MessageFields(c, m)
  {
  }

  method ReadMessage(c: Codec, reader: WireReader, ghost goal: Option<DealerMessage>) returns (r: Result<DealerMessage, Error>)
    requires reader.Valid() && c.Canonical()
    requires goal.Some? ==> MessageBegins(c, goal.value, reader.Rest())
    modifies reader
    ensures reader.Valid()
    ensures r.Ok? ==> ValidMessage(r.value) && r.value == Rooted(c, r.value)
    ensures r.Ok? ==> Splits(old(reader.Rest()), EncodeMessage(c, r.value), reader.Rest())
    ensures goal.Some? ==> r == Ok(Rooted(c, goal.value))
  {
    ghost var start, fields := reader.Rest(), GoalFields(c, goal);
    var header := ReadHeader(c, reader, goal);
    if header.Err? {
      return Err(header.error);
    }
    ghost var read, rest := HeaderFields(header.value), reader.Rest();
    FieldNext(fields, start, read, rest);
    var commitment := ReadCommitment(c, reader);
    if commitment.Err? {
      return Err(commitment.error);
    }
    FieldRead(fields, start, read, rest, EncodeCommitment(c, commitment.value), reader.Rest());
    read, rest := read + [EncodeCommitment(c, commitment.value)], reader.Rest();
    FieldNext(fields, start, read, rest);
    var shares := ReadShares(c, reader);
    if shares.Err? {
      return Err(shares.error);
    }
    FieldRead(fields, start, read, rest, EncodeShares(c, shares.value), reader.Rest());
    read, rest := read + [EncodeShares(c, shares.value)], reader.Rest();
    FieldNext(fields, start, read, rest);
    var proof := ReadBlob(reader);
    if proof.Err? {
      return Err(proof.error);
    }
    FieldRead(fields, start, read, rest, ContextField(proof.value), reader.Rest());
    FieldsEnd(fields, start, read + [ContextField(proof.value)], reader.Rest());
    var message := DealerMessage(header.value.sessionId, header.value.registryRoot, header.value.dealer, header.value.nonce,
                                 commitment.value, shares.value, proof.value, []);
    r := Ok(message.(transcriptRoot := RootOf(c.backend, message)));
    MessageFieldsFrom(c, r.value);
  }

  // The announced size is the size.
  function WireSizeHint(c: Codec, m: DealerMessage): nat {
    var encryptedShareLen := 4 + c.elementBytes + c.scalarBytes;
    32 + 32 + 4 + 32 + 8 + |m.commitment| * c.elementBytes + 8 + |m.encryptedShares| * encryptedShareLen + 8 + |m.proof|
  }

  lemma SizeHintIsExact(c: Codec, m: DealerMessage)
    requires c.Canonical() && ValidMessage(m)
    ensures |EncodeMessage(c, m)| == WireSizeHint(c, m)
  {
    ElementWidth(c);
    AllLength(c.encodeElement, c.elementBytes, m.commitment);
    ShareWidth(c);
    KeyedWidth(ShareEncoder(c), c.elementBytes + c.scalarBytes);
    AllLength(Keyed(ShareEncoder(c)), 4 + c.elementBytes + c.scalarBytes, Listed(m.encryptedShares));
    var fields := MessageFields(c, m);
    ConcatLength(fields);
    SevenLengths(fields);
  }

  function Lengths(parts: seq<Bytes>): nat {
    if |parts| == 0 then 0 else |parts[0]| + Lengths(parts[1..])
  }

  lemma SevenLengths(parts: seq<Bytes>)
    requires |parts| == 7
    ensures Lengths(parts) == |parts[0]| + |parts[1]| + |parts[2]| + |parts[3]| + |parts[4]| + |parts[5]| + |parts[6]|
  {
    assert parts[0..] == parts;
    LengthsStep(parts, 0);
    LengthsStep(parts, 1);
    LengthsStep(parts, 2);
    LengthsStep(parts, 3);
    LengthsStep(parts, 4);
    LengthsStep(parts, 5);
    LengthsStep(parts, 6);
  }

  lemma LengthsStep(parts: seq<Bytes>, k: nat)
    requires k < |parts|
    ensures Lengths(parts[k..]) == |parts[k]| + Lengths(parts[k + 1..])
  {
    assert parts[k..][1..] == parts[k + 1..];
  }

  lemma {:induction false} ConcatLength(parts: seq<Bytes>)
    ensures |Concat(parts)| == Lengths(parts)
  {
    if |parts| > 0 {
      ConcatLength(parts[1..]);
    }
  }
}
