// Standalone wire values: magic, tag, codec context and body, with nothing after them.
module WireEnvelope {
  import opened Wrappers
  import opened Bits
  import opened Scalars
  import opened Core
  import opened Dkg
  import opened Registries
  import opened Wire
  import opened WireLists
  import opened WireMessages

  datatype Kind = SessionIdKind | NonceKind | ShareKind | CommitmentKind | RegistryKind | ConfigKind | MessageKind | ProofKind

  datatype WireValue =
    | SessionIdValue(sessionId: Bytes)
    | NonceValue(nonce: Bytes)
    | ShareValue(share: EncryptedShare)
    | CommitmentValue(commitment: seq<Element>)
    | RegistryValue(registry: Registry)
    | ConfigValue(config: SetupConfig)
    | MessageValue(message: DealerMessage)
    | ProofValue(proof: IdentityKeyProof)

  function KindOf(v: WireValue): Kind {
    match v
    case SessionIdValue(_) => SessionIdKind
    case NonceValue(_) => NonceKind
    case ShareValue(_) => ShareKind
    case CommitmentValue(_) => CommitmentKind
    case RegistryValue(_) => RegistryKind
    case ConfigValue(_) => ConfigKind
    case MessageValue(_) => MessageKind
    case ProofValue(_) => ProofKind
  }

  function Ascii(s: string): (r: Bytes)
    ensures |r| == |s|
  {
    seq<Byte>(|s|, i requires 0 <= i < |s| => if s[i] as int < 256 then s[i] as int else 0)
  }

  function Magic(): Bytes {
    Ascii("golden-dkg-wire-v3")
  }

  function Tag(kind: Kind): Byte {
    match kind
    case SessionIdKind => 1
    case NonceKind => 2
    case ShareKind => 3
    case CommitmentKind => 4
    case RegistryKind => 5
    case ConfigKind => 6
    case MessageKind => 7
    case ProofKind => 8
  }

  function CodecId(kind: Kind): string {
    match kind
    case SessionIdKind => "session-id-v1"
    case NonceKind => "dealer-message-nonce-v1"
    case ShareKind => "encrypted-share-v2"
    case CommitmentKind => "feldman-commitment-v1"
    case RegistryKind => "participant-registry-v2"
    case ConfigKind => "dkg-config-v2"
    case MessageKind => "dealer-message-v3"
    case ProofKind => "identity-key-proof-v1"
  }

  // Values of the group name the backend they belong to.
  predicate BindsBackend(kind: Kind) {
    kind != SessionIdKind && kind != NonceKind
  }

  function Body(c: Codec, v: WireValue): Bytes {
    match v
    case SessionIdValue(b) => b
    case NonceValue(b) => b
    case ShareValue(share) => EncodeShare(c, share)
    case CommitmentValue(es) => EncodeCommitment(c, es)
    case RegistryValue(registry) => EncodeRegistry(c, registry)
    case ConfigValue(config) => EncodeConfig(c, config)
    case MessageValue(m) => EncodeMessage(c, m)
    case ProofValue(proof) => EncodeProof(c, proof)
  }

  predicate ValidValue(c: Codec, v: WireValue) {
    match v
    case SessionIdValue(b) => |b| == DIGEST_BYTES
    case NonceValue(b) => |b| == DIGEST_BYTES
    case ShareValue(_) => true
    case CommitmentValue(es) => ValidCommitment(es)
    case RegistryValue(registry) => ValidRegistry(c, registry)
    case ConfigValue(config) => ValidConfig(c, config)
    case MessageValue(m) => ValidMessage(m)
    case ProofValue(_) => true
  }

  // What decoding gives back: a message's root is recomputed.
  function Received(c: Codec, v: WireValue): WireValue {
    match v
    case MessageValue(m) => MessageValue(Rooted(c, m))
    case _ => v
  }

  function Context(c: Codec, kind: Kind): seq<Bytes> {
    [ContextField(Ascii(CodecId(kind)))] + if BindsBackend(kind) then [ContextField(c.backendId)] else []
  }

  function Envelope(c: Codec, v: WireValue): seq<Bytes> {
    [Magic(), [Tag(KindOf(v))]] + Context(c, KindOf(v)) + [Body(c, v)]
  }

  function Standalone(c: Codec, v: WireValue): Bytes {
    Concat(Envelope(c, v))
  }

  ghost predicate BodyBegins(c: Codec, v: WireValue, s: Bytes) {
    ValidValue(c, v) && Starts(Body(c, v), s)
  }

  // ----- one body per input -----

  lemma FixedUnique<V(!new)>(encode: V -> Bytes, width: nat, v: V, w: V, s: Bytes)
    requires FixedWidth(encode, width) && Starts(encode(v), s) && Starts(encode(w), s)
    ensures v == w
  {
    SameStart(encode(v), encode(w), s);
  }

  lemma PairsUnique(c: Codec, e: Element, x: Scalar, e': Element, x': Scalar, s: Bytes)
    requires c.Canonical() && Starts(EncodePair(c, e, x), s) && Starts(EncodePair(c, e', x'), s)
    ensures e == e' && x == x'
  {
    PairUnique(c, e, x, e', x');
    PairUnique(c, e', x', e, x);
    SameStart(EncodePair(c, e, x), EncodePair(c, e', x'), s);
  }

  lemma MapsUnique<V(!new)>(encode: V -> Bytes, width: nat, m: map<ParticipantIndex, V>, m': map<ParticipantIndex, V>, s: Bytes)
    requires FixedWidth(encode, width) && |m| < SIZE_LIMIT && |m'| < SIZE_LIMIT
    requires Starts(EncodeList(Keyed(encode), Listed(m)), s) && Starts(EncodeList(Keyed(encode), Listed(m')), s)
    ensures m == m'
  {
    KeyedWidth(encode, width);
    ListUnique(Keyed(encode), 4 + width, Listed(m), Listed(m'), s);
    FromPairsListed(m);
    FromPairsListed(m');
  }

  lemma IndexUnique(p: ParticipantIndex, p': ParticipantIndex, s: Bytes)
    requires Starts(U32(p), s) && Starts(U32(p'), s)
    ensures p == p'
  {
    Widths();
    FromToBe(p, 4);
    FromToBe(p', 4);
    SameStart(U32(p), U32(p'), s);
  }

  // The k-th fields of two records that begin one input, after equal fields.
  lemma NextFields(f: seq<Bytes>, g: seq<Bytes>, k: nat, s: Bytes)
    requires k < |f| && k < |g| && Starts(Concat(f[k..]), s) && Starts(Concat(g[k..]), s)
    ensures Starts(f[k], s) && Starts(g[k], s)
  {
    AllPeel(Whole, f, k, s);
    AllPeel(Whole, g, k, s);
  }

  lemma AfterFields(f: seq<Bytes>, g: seq<Bytes>, k: nat, s: Bytes) returns (rest: Bytes)
    requires k < |f| && k < |g| && Starts(Concat(f[k..]), s) && Starts(Concat(g[k..]), s) && f[k] == g[k]
    ensures Starts(Concat(f[k + 1..]), rest) && Starts(Concat(g[k + 1..]), rest)
    ensures k + 1 < |f| && k + 1 < |g| ==> Starts(f[k + 1], rest) && Starts(g[k + 1], rest)
  {
    AllPeel(Whole, f, k, s);
    AllPeel(Whole, g, k, s);
    rest := Remainder(f[k], s);
    if k + 1 < |f| && k + 1 < |g| {
      NextFields(f, g, k + 1, rest);
    }
  }

  lemma ConfigsUnique(c: Codec, v: SetupConfig, w: SetupConfig, s: Bytes)
    requires c.Canonical() && ConfigBegins(c, v, s) && ConfigBegins(c, w, s)
    ensures v == w
  {
    var f, g := ConfigFields(c, v), ConfigFields(c, w);
    assert f[0..] == f && g[0..] == g;
    NextFields(f, g, 0, s);
    LenUnique(v.threshold, w.threshold, s);
    var rest := AfterFields(f, g, 0, s);
    SameStart(v.sessionId, w.sessionId, rest);
    rest := AfterFields(f, g, 1, rest);
    ScalarWidth(c);
    FixedUnique(c.encodeScalar, c.scalarBytes, v.beta, w.beta, rest);
    rest := AfterFields(f, g, 2, rest);
    RegisteredWidth(c);
    MapsUnique(RegisteredEncoder(c), 2 * c.elementBytes + c.scalarBytes, v.registry, w.registry, rest);
  }

  lemma MessagesUnique(c: Codec, v: DealerMessage, w: DealerMessage, s: Bytes)
    requires c.Canonical() && MessageBegins(c, v, s) && MessageBegins(c, w, s)
    ensures Rooted(c, v) == Rooted(c, w)
  {
    var f, g := MessageFields(c, v), MessageFields(c, w);
    assert f[0..] == f && g[0..] == g;
    NextFields(f, g, 0, s);
    SameStart(v.sessionId, w.sessionId, s);
    var rest := AfterFields(f, g, 0, s);
    SameStart(v.registryRoot, w.registryRoot, rest);
    rest := AfterFields(f, g, 1, rest);
    IndexUnique(v.dealer, w.dealer, rest);
    rest := AfterFields(f, g, 2, rest);
    SameStart(v.nonce, w.nonce, rest);
    rest := AfterFields(f, g, 3, rest);
    ElementWidth(c);
    ListUnique(c.encodeElement, c.elementBytes, v.commitment, w.commitment, rest);
    rest := AfterFields(f, g, 4, rest);
    ShareWidth(c);
    MapsUnique(ShareEncoder(c), c.elementBytes + c.scalarBytes, v.encryptedShares, w.encryptedShares, rest);
    rest := AfterFields(f, g, 5, rest);
    BlobUnique(v.proof, w.proof, rest);
  }

  // No input begins with the bodies of two different values of one kind.
  lemma BodiesUnique(c: Codec, v: WireValue, w: WireValue, s: Bytes)
    requires c.Canonical() && KindOf(v) == KindOf(w) && BodyBegins(c, v, s) && BodyBegins(c, w, s)
    ensures Received(c, v) == Received(c, w)
  {
    match v
    case SessionIdValue(b) => SameStart(b, w.sessionId, s);
    case NonceValue(b) => SameStart(b, w.nonce, s);
    case ShareValue(share) => PairsUnique(c, share.padCommitment, share.encryptedShare, w.share.padCommitment, w.share.encryptedShare, s);
    case CommitmentValue(es) =>
      ElementWidth(c);
      ListUnique(c.encodeElement, c.elementBytes, es, w.commitment, s);
    case RegistryValue(registry) =>
      RegisteredWidth(c);
      MapsUnique(RegisteredEncoder(c), 2 * c.elementBytes + c.scalarBytes, registry, w.registry, s);
    case ConfigValue(config) => ConfigsUnique(c, config, w.config, s);
    case MessageValue(m) => MessagesUnique(c, m, w.message, s);
    case ProofValue(proof) => PairsUnique(c, proof.noncePoint, proof.response, w.proof.noncePoint, w.proof.response, s);
  }

  // ----- encoding and decoding -----

  method ToWireBytes(c: Codec, v: WireValue) returns (out: Bytes)
    ensures out == Standalone(c, v)
  {
    out := Magic();
    out := out + [Tag(KindOf(v))];
    out := out + ContextField(Ascii(CodecId(KindOf(v))));
    if BindsBackend(KindOf(v)) {
      out := out + ContextField(c.backendId);
    }
    out := out + Body(c, v);
    EnvelopeIs(c, v);
  }

  lemma EnvelopeIs(c: Codec, v: WireValue)
    ensures Standalone(c, v) == Magic() + [Tag(KindOf(v))] + ContextField(Ascii(CodecId(KindOf(v))))
         + (if BindsBackend(KindOf(v)) then ContextField(c.backendId) else []) + Body(c, v)
  {
    EnvelopeConcat(Magic(), [Tag(KindOf(v))], ContextField(Ascii(CodecId(KindOf(v)))),
                   if BindsBackend(KindOf(v)) then [ContextField(c.backendId)] else [], Body(c, v));
  }

  lemma EnvelopeConcat(magic: Bytes, tag: Bytes, id: Bytes, backend: seq<Bytes>, body: Bytes)
    requires |backend| <= 1
    ensures Concat([magic, tag] + ([id] + backend) + [body])
         == magic + tag + id + (if |backend| == 1 then backend[0] else []) + body
  {
    var three := [] + [magic] + [tag] + [id];
    ThreeFields(magic, tag, id);
    if |backend| == 1 {
      AllPush(Whole, three, backend[0]);
      AllPush(Whole, three + [backend[0]], body);
      assert [magic, tag] + ([id] + backend) + [body] == three + [backend[0]] + [body];
    } else {
      AllPush(Whole, three, body);
      assert [magic, tag] + ([id] + backend) + [body] == three + [body];
    }
  }

  lemma ThreeFields(x: Bytes, y: Bytes, z: Bytes)
    ensures Concat([] + [x] + [y] + [z]) == x + y + z
  {
    AllPush(Whole, [], x);
    AllPush(Whole, [] + [x], y);
    AllPush(Whole, [] + [x] + [y], z);
  }

  method ReadBody(c: Codec, kind: Kind, reader: WireReader, ghost goal: Option<WireValue>) returns (r: Result<WireValue, Error>)
    requires reader.Valid() && c.Canonical()
    requires goal.Some? ==> KindOf(goal.value) == kind && BodyBegins(c, goal.value, reader.Rest())
    modifies reader
    ensures reader.Valid()
    ensures r.Ok? ==> KindOf(r.value) == kind && ValidValue(c, r.value) && r.value == Received(c, r.value)
    ensures r.Ok? ==> Splits(old(reader.Rest()), Body(c, r.value), reader.Rest())
    ensures goal.Some? ==> r == Ok(Received(c, goal.value))
  {
    match kind {
      case SessionIdKind =>
        var b := ReadDigest(reader);
        r := if b.Ok? then Ok(SessionIdValue(b.value)) else Err(b.error);
      case NonceKind =>
        var b := ReadDigest(reader);
        r := if b.Ok? then Ok(NonceValue(b.value)) else Err(b.error);
      case ShareKind =>
        var share := ReadShare(c, reader);
        r := if share.Ok? then Ok(ShareValue(share.value)) else Err(share.error);
      case CommitmentKind =>
        var es := ReadCommitment(c, reader);
        r := if es.Ok? then Ok(CommitmentValue(es.value)) else Err(es.error);
      case RegistryKind =>
        var registry := ReadRegistry(c, reader);
        r := if registry.Ok? then Ok(RegistryValue(registry.value)) else Err(registry.error);
      case ConfigKind =>
        var config := ReadConfig(c, reader, if goal.Some? then Some(goal.value.config) else None);
        r := if config.Ok? then Ok(ConfigValue(config.value)) else Err(config.error);
      case MessageKind =>
        var m := ReadMessage(c, reader, if goal.Some? then Some(goal.value.message) else None);
        r := if m.Ok? then Ok(MessageValue(m.value)) else Err(m.error);
      case ProofKind =>
        var proof := ReadProof(c, reader);
        r := if proof.Ok? then Ok(ProofValue(proof.value)) else Err(proof.error);
    }
  }

  // The envelope up to the body, whose fields are all expected.
  method ReadEnvelope(c: Codec, kind: Kind, reader: WireReader, ghost goal: Option<WireValue>) returns (r: Result<(), Error>)
    requires reader.Valid() && c.Canonical()
    requires goal.Some? ==> KindOf(goal.value) == kind && Starts(Standalone(c, goal.value), reader.Rest())
    modifies reader
    ensures reader.Valid()
    ensures r.Ok? ==> FieldsSoFar(GoalEnvelope(c, goal), old(reader.Rest()), [Magic(), [Tag(kind)]] + Context(c, kind), reader.Rest())
    ensures r.Err? ==> r.error == InvalidEncoding
    ensures goal.Some? ==> r.Ok?
  {
    c.CanonicalMeans();
    ghost var start, fields := reader.Rest(), GoalEnvelope(c, goal);
    FieldsStart(fields, start);
    ghost var read: seq<Bytes>, rest := [], start;
    FieldNext(fields, start, read, rest);
    var magic := reader.Expect(Magic());
    if magic.Err? {
      return magic;
    }
    FieldRead(fields, start, read, rest, Magic(), reader.Rest());
    read, rest := read + [Magic()], reader.Rest();
    FieldNext(fields, start, read, rest);
    var tag := reader.ReadU8();
    if tag.Err? {
      return Err(tag.error);
    }
    if tag.value != Tag(kind) {
      return Err(InvalidEncoding);
    }
    FieldRead(fields, start, read, rest, [Tag(kind)], reader.Rest());
    read, rest := read + [[Tag(kind)]], reader.Rest();
    FieldNext(fields, start, read, rest);
    var id := reader.ExpectContextField(Ascii(CodecId(kind)));
    if id.Err? {
      return id;
    }
    FieldRead(fields, start, read, rest, ContextField(Ascii(CodecId(kind))), reader.Rest());
    read, rest := read + [ContextField(Ascii(CodecId(kind)))], reader.Rest();
    if BindsBackend(kind) {
      FieldNext(fields, start, read, rest);
      var backend := reader.ExpectContextField(c.backendId);
      if backend.Err? {
        return backend;
      }
      FieldRead(fields, start, read, rest, ContextField(c.backendId), reader.Rest());
      read, rest := read + [ContextField(c.backendId)], reader.Rest();
    }
    ContextFrom(c, kind);
    return Ok(());
  }

  ghost function GoalEnvelope(c: Codec, goal: Option<WireValue>): Option<seq<Bytes>> {
    if goal.Some? then Some(Envelope(c, goal.value)) else None
  }

  lemma ContextFrom(c: Codec, kind: Kind)
    ensures
      var id := [] + [Magic()] + [[Tag(kind)]] + [ContextField(Ascii(CodecId(kind)))];
      [Magic(), [Tag(kind)]] + Context(c, kind) == if BindsBackend(kind) then id + [ContextField(c.backendId)] else id
  {
  }

  // Decoding succeeds exactly on the encodings of the kind's valid values, and gives the
  // value back.
  method FromWireBytes(c: Codec, kind: Kind, bytes: Bytes) returns (r: Result<WireValue, Error>)
    requires c.Canonical() && |bytes| < SIZE_LIMIT
    ensures r.Ok? ==> KindOf(r.value) == kind && ValidValue(c, r.value) && r.value == Received(c, r.value)
    ensures r.Ok? ==> Standalone(c, r.value) == bytes
    ensures forall v :: KindOf(v) == kind && ValidValue(c, v) && Standalone(c, v) == bytes ==> r == Ok(Received(c, v))
  {
    var reader := new WireReader(bytes);
    ghost var goal := StandaloneGoal(c, kind, bytes);
    var envelope := ReadEnvelope(c, kind, reader, goal);
    if envelope.Err? {
      return Err(envelope.error);
    }
    ghost var before, fields := reader.Rest(), [Magic(), [Tag(kind)]] + Context(c, kind);
    if goal.Some? {
      FieldNext(GoalEnvelope(c, goal), bytes, fields, before);
    }
    r := ReadBody(c, kind, reader, goal);
    if r.Err? {
      return;
    }
    ReceivedBody(c, r.value);
    if goal.Some? {
      ReceivedBody(c, goal.value);
    }
    FieldRead(GoalEnvelope(c, goal), bytes, fields, before, Body(c, r.value), reader.Rest());
    FieldsEnd(GoalEnvelope(c, goal), bytes, fields + [Body(c, r.value)], reader.Rest());
    Prefixes();
    if goal.Some? {
      assert Standalone(c, goal.value) + reader.Rest() == bytes;
    }
    var finished := reader.Finish();
    if finished.Err? {
      return Err(finished.error);
    }
  }

  // The root is not part of the body.
  lemma ReceivedBody(c: Codec, v: WireValue)
    ensures Body(c, Received(c, v)) == Body(c, v)
  {
  }

  lemma StandaloneGoal(c: Codec, kind: Kind, bytes: Bytes) returns (goal: Option<WireValue>)
    requires c.Canonical()
    ensures goal.Some? ==> KindOf(goal.value) == kind && ValidValue(c, goal.value) && Standalone(c, goal.value) == bytes
    ensures goal.Some? ==> Starts(Standalone(c, goal.value), bytes)
    ensures forall v :: KindOf(v) == kind && ValidValue(c, v) && Standalone(c, v) == bytes ==>
      goal.Some? && Received(c, goal.value) == Received(c, v)
  {
    goal := None;
    Prefixes();
    if w :| KindOf(w) == kind && ValidValue(c, w) && Standalone(c, w) == bytes {
      goal := Some(w);
      forall v | KindOf(v) == kind && ValidValue(c, v) && Standalone(c, v) == bytes
        ensures Received(c, w) == Received(c, v)
      {
        SameKind(c, v, w);
        BodiesUnique(c, v, w, Body(c, v));
      }
    }
  }

  lemma SameKind(c: Codec, v: WireValue, w: WireValue)
    requires KindOf(v) == KindOf(w) && Standalone(c, v) == Standalone(c, w)
    ensures Body(c, v) == Body(c, w)
  {
    EnvelopeIs(c, v);
    EnvelopeIs(c, w);
    var head := Magic() + [Tag(KindOf(v))] + ContextField(Ascii(CodecId(KindOf(v))))
      + if BindsBackend(KindOf(v)) then ContextField(c.backendId) else [];
    assert Body(c, v) == Standalone(c, v)[|head|..] == Body(c, w);
  }

  // No bytes are two kinds of value, nor values of two backends.
  lemma DomainsSeparate(c: Codec, v: WireValue, c': Codec, w: WireValue)
    requires Standalone(c, v) == Standalone(c', w) && |c.backendId| < SIZE_LIMIT && |c'.backendId| < SIZE_LIMIT
    ensures KindOf(v) == KindOf(w)
    ensures BindsBackend(KindOf(v)) ==> c.backendId == c'.backendId
  {
    var x, y := Tail(c, v), Tail(c', w);
    TailIs(c, v);
    TailIs(c', w);
    SameTail(Magic(), Tag(KindOf(v)), x, Tag(KindOf(w)), y);
    if BindsBackend(KindOf(v)) {
      var id := ContextField(Ascii(CodecId(KindOf(v))));
      SameRest(id, ContextField(c.backendId) + Body(c, v), ContextField(c'.backendId) + Body(c', w));
      var rest := ContextField(c.backendId) + Body(c, v);
      UnfoldStarts(ContextField(c.backendId), rest, q);
      UnfoldStarts(ContextField(c'.backendId), rest, q);
      BlobUnique(c.backendId, c'.backendId, rest);
    }
  }

  // What follows the tag.
  function Tail(c: Codec, v: WireValue): Bytes {
    ContextField(Ascii(CodecId(KindOf(v)))) + ((if BindsBackend(KindOf(v)) then ContextField(c.backendId) else []) + Body(c, v))
  }

  lemma TailIs(c: Codec, v: WireValue)
    ensures Standalone(c, v) == Magic() + ([Tag(KindOf(v))] + Tail(c, v))
  {
    EnvelopeIs(c, v);
    Regroup(Magic(), [Tag(KindOf(v))], ContextField(Ascii(CodecId(KindOf(v)))),
            if BindsBackend(KindOf(v)) then ContextField(c.backendId) else [], Body(c, v));
  }

  lemma Regroup(a: Bytes, b: Bytes, d: Bytes, e: Bytes, f: Bytes)
    ensures a + b + d + e + f == a + (b + (d + (e + f)))
  {
  }

  lemma SameTail(m: Bytes, t: Byte, x: Bytes, t': Byte, y: Bytes)
    requires m + ([t] + x) == m + ([t'] + y)
    ensures t == t' && x == y
  {
    SameRest(m, [t] + x, [t'] + y);
    assert ([t] + x)[0] == t && ([t'] + y)[0] == t';
    SameRest([t], x, y);
  }

  lemma SameRest(a: Bytes, x: Bytes, y: Bytes)
    requires a + x == a + y
    ensures x == y
  {
    assert x == (a + x)[|a|..] == (a + y)[|a|..] == y;
  }

  // The eight tags, at the byte after the 18 bytes of the magic.
  lemma TagByte(c: Codec, v: WireValue)
    ensures |Standalone(c, v)| > 18
    ensures Standalone(c, v)[18] == match v
      case SessionIdValue(_) => 0x01
      case NonceValue(_) => 0x02
      case ShareValue(_) => 0x03
      case CommitmentValue(_) => 0x04
      case RegistryValue(_) => 0x05
      case ConfigValue(_) => 0x06
      case MessageValue(_) => 0x07
      case ProofValue(_) => 0x08
  {
    TailIs(c, v);
    var rest := [Tag(KindOf(v))] + Tail(c, v);
    assert |Magic()| == 18 && rest[0] == Tag(KindOf(v));
  }

  // What an honest dealer publishes goes over the wire.
  lemma HonestMessageIsValid(b: Backend, config: DkgConfig, secret: Scalar, f: seq<Scalar>, d: DkgDealing, c: Codec)
    requires HonestDealing(b, config, secret, f, d) && config.threshold < SIZE_LIMIT && |config.registry| < SIZE_LIMIT
    requires |d.message.sessionId| == |d.message.registryRoot| == |d.message.nonce| == DIGEST_BYTES && |d.message.proof| < SIZE_LIMIT
    ensures ValidValue(c, MessageValue(d.message))
  {
    var m := d.message;
    assert m.encryptedShares.Keys <= config.registry.Keys;
    SmallerMap(m.encryptedShares.Keys, config.registry.Keys);
  }

  lemma SmallerMap(a: set<ParticipantIndex>, b: set<ParticipantIndex>)
    requires a <= b
    ensures |a| <= |b|
  {
    assert b == a + (b - a);
  }

  // Where the fixed fields of a dealer message and of a configuration lie.
  lemma MessageLayout(c: Codec, m: DealerMessage)
    requires ValidMessage(m)
    ensures
      var bytes := EncodeMessage(c, m);
      && |bytes| >= 100 && bytes[..32] == m.sessionId && bytes[32..64] == m.registryRoot
      && FromBe(bytes[64..68]) == m.dealer && bytes[68..100] == m.nonce
  {
    Widths();
    FromToBe(m.dealer, 4);
    FourFields(m.sessionId, m.registryRoot, U32(m.dealer), m.nonce,
      [EncodeCommitment(c, m.commitment), EncodeShares(c, m.encryptedShares), ContextField(m.proof)]);
    assert MessageFields(c, m) == [m.sessionId, m.registryRoot, U32(m.dealer), m.nonce]
      + [EncodeCommitment(c, m.commitment), EncodeShares(c, m.encryptedShares), ContextField(m.proof)];
  }

  lemma FourFields(a: Bytes, b: Bytes, d: Bytes, e: Bytes, rest: seq<Bytes>)
    ensures
      var bytes := Concat([a, b, d, e] + rest);
      && |bytes| >= |a| + |b| + |d| + |e| && bytes[..|a|] == a && bytes[|a|..|a| + |b|] == b
      && bytes[|a| + |b|..|a| + |b| + |d|] == d && bytes[|a| + |b| + |d|..|a| + |b| + |d| + |e|] == e
  {
    ConcatFour(a, b, d, e, rest);
    FourSlices(a, b, d, e, Concat(rest));
  }

  lemma FourSlices(a: Bytes, b: Bytes, d: Bytes, e: Bytes, rest: Bytes)
    ensures
      var bytes := a + (b + (d + (e + rest)));
      && |bytes| >= |a| + |b| + |d| + |e| && bytes[..|a|] == a && bytes[|a|..|a| + |b|] == b
      && bytes[|a| + |b|..|a| + |b| + |d|] == d && bytes[|a| + |b| + |d|..|a| + |b| + |d| + |e|] == e
  {
  }

  lemma ConcatFirst(part: Bytes, rest: seq<Bytes>)
    ensures Concat([part] + rest) == part + Concat(rest)
  {
    assert ([part] + rest)[1..] == rest;
  }

  lemma ConcatFour(a: Bytes, b: Bytes, d: Bytes, e: Bytes, rest: seq<Bytes>)
    ensures Concat([a, b, d, e] + rest) == a + (b + (d + (e + Concat(rest))))
  {
    ConcatFirst(e, rest);
    ConcatFirst(d, [e] + rest);
    ConcatFirst(b, [d] + ([e] + rest));
    ConcatFirst(a, [b] + ([d] + ([e] + rest)));
    assert [a] + ([b] + ([d] + ([e] + rest))) == [a, b, d, e] + rest;
  }

  lemma ConfigLayout(c: Codec, v: SetupConfig)
    requires ValidConfig(c, v)
    ensures
      var bytes := EncodeConfig(c, v);
      var beta := c.encodeScalar(v.beta);
      && |bytes| >= 40 + |beta| && FromBe(bytes[..8]) == v.threshold && bytes[8..40] == v.sessionId && bytes[40..40 + |beta|] == beta
  {
    Widths();
    FromToBe(v.threshold, 8);
    FourFields(Len(v.threshold), v.sessionId, c.encodeScalar(v.beta), EncodeRegistry(c, v.registry), []);
    assert [Len(v.threshold), v.sessionId, c.encodeScalar(v.beta), EncodeRegistry(c, v.registry)] + [] == ConfigFields(c, v);
  }
}
