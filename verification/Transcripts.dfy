// The transcripts behind the roots: transcript.rs and the root functions of dkg.rs.
//
// SHA-256 is a parameter. That two roots agree only for the same inputs is reduced to the
// hash: the bytes it is fed determine the inputs.
module Transcripts {
  import opened Wrappers
  import opened Bits
  import opened Scalars
  import opened Core
  import opened Dkg
  import opened Registries
  import opened Wire
  import opened WireLists
  import opened WireMessages
  import opened WireEnvelope

  type Hash = Bytes -> Bytes

  // ----- framing -----

  // One labelled field of a transcript.
  datatype Entry = Entry(name: Bytes, data: Bytes)

  // Label and data, each behind its length.
  function Frame(e: Entry): Bytes {
    ContextField(e.name) + ContextField(e.data)
  }

  function Frames(es: seq<Entry>): Bytes {
    EncodeAll(Frame, es)
  }

  predicate Short(e: Entry) {
    |e.name| < SIZE_LIMIT && |e.data| < SIZE_LIMIT
  }

  predicate AllShort(es: seq<Entry>) {
    forall i :: 0 <= i < |es| ==> Short(es[i])
  }

  lemma FrameUnique(e: Entry, f: Entry, s: Bytes)
    requires Short(e) && Short(f) && Starts(Frame(e), s) && Starts(Frame(f), s)
    ensures e == f
  {
    StartsFirst(ContextField(e.name), ContextField(e.data), s);
    StartsFirst(ContextField(f.name), ContextField(f.data), s);
    BlobUnique(e.name, f.name, s);
    var rest := Remainder(ContextField(e.name), s);
    StartsRest(ContextField(e.name), ContextField(e.data), s, rest);
    StartsRest(ContextField(e.name), ContextField(f.data), s, rest);
    BlobUnique(e.data, f.data, rest);
  }

  // A byte string is the framing of at most one list of fields.
  lemma {:induction false} FramesUnique(es: seq<Entry>, fs: seq<Entry>)
    requires AllShort(es) && AllShort(fs) && Frames(es) == Frames(fs)
    ensures es == fs
    decreases |es| + |fs|
  {
    if |es| > 0 && |fs| > 0 {
      var s := Frames(es);
      UnfoldStarts(Frame(es[0]), s, q);
      UnfoldStarts(Frame(fs[0]), s, q);
      FrameUnique(es[0], fs[0], s);
      SameRest(Frame(es[0]), Frames(es[1..]), Frames(fs[1..]));
      FramesUnique(es[1..], fs[1..]);
      assert es == [es[0]] + es[1..] && fs == [fs[0]] + fs[1..];
    }
  }

  // The protocol prefix and the transcript's label, then its fields.
  function Opened(name: Bytes): Bytes {
    Ascii("golden-core-v1") + ContextField(name)
  }

  function Absorbed(name: Bytes, es: seq<Entry>): Bytes {
    Opened(name) + Frames(es)
  }

  // The absorbed bytes determine label and fields, so transcripts of different labels
  // never meet.
  lemma AbsorbedUnique(name: Bytes, name': Bytes, es: seq<Entry>, fs: seq<Entry>)
    requires |name| < SIZE_LIMIT && |name'| < SIZE_LIMIT && AllShort(es) && AllShort(fs)
    requires Absorbed(name, es) == Absorbed(name', fs)
    ensures name == name' && es == fs
  {
    var p := Ascii("golden-core-v1");
    Associates(p, ContextField(name), Frames(es));
    Associates(p, ContextField(name'), Frames(fs));
    SameRest(p, ContextField(name) + Frames(es), ContextField(name') + Frames(fs));
    var s := ContextField(name) + Frames(es);
    UnfoldStarts(ContextField(name), s, q);
    UnfoldStarts(ContextField(name'), s, q);
    BlobUnique(name, name', s);
    SameRest(ContextField(name), Frames(es), Frames(fs));
    FramesUnique(es, fs);
  }

  lemma Associates(a: Bytes, b: Bytes, c: Bytes)
    ensures a + b + c == a + (b + c)
  {
  }

  lemma AbsorbedPush(name: Bytes, es: seq<Entry>, e: Entry)
    ensures Absorbed(name, es + [e]) == Absorbed(name, es) + Len(|e.name|) + e.name + Len(|e.data|) + e.data
  {
    AllPush(Frame, es, e);
    Associates(Opened(name), Frames(es), Frame(e));
    FourMore(Absorbed(name, es), Len(|e.name|), e.name, Len(|e.data|), e.data);
  }

  lemma FourMore(a: Bytes, b: Bytes, c: Bytes, d: Bytes, e: Bytes)
    ensures a + (b + c + (d + e)) == a + b + c + d + e
  {
  }

  // The builder: it feeds the hash field by field.
  class TranscriptBuilder {
    var absorbed: Bytes
    ghost var name: Bytes
    ghost var entries: seq<Entry>

    ghost predicate Valid()
      reads this
    {
      absorbed == Absorbed(name, entries)
    }

    constructor (name: Bytes)
      ensures Valid() && this.name == name && entries == []
    {
      absorbed := Ascii("golden-core-v1") + Len(|name|) + name;
      this.name := name;
      entries := [];
      new;
      assert ContextField(name) == Len(|name|) + name;
    }

    method AppendBytes(name: Bytes, data: Bytes)
      requires Valid()
      modifies this
      ensures Valid() && this.name == old(this.name) && entries == old(entries) + [Entry(name, data)]
    {
      AbsorbedPush(this.name, entries, Entry(name, data));
      absorbed := absorbed + Len(|name|);
      absorbed := absorbed + name;
      absorbed := absorbed + Len(|data|);
      absorbed := absorbed + data;
      entries := entries + [Entry(name, data)];
    }

    method AppendU32(name: Bytes, value: nat)
      requires Valid()
      modifies this
      ensures Valid() && this.name == old(this.name) && entries == old(entries) + [Entry(name, U32(value))]
    {
      AppendBytes(name, U32(value));
    }

    method AppendUsize(name: Bytes, value: nat)
      requires Valid()
      modifies this
      ensures Valid() && this.name == old(this.name) && entries == old(entries) + [Entry(name, Len(value))]
    {
      AppendBytes(name, Len(value));
    }

    function Root(hash: Hash): Bytes
      reads this
    {
      hash(absorbed)
    }
  }

  // ----- counted lists of fields -----

  // Every item gives the same number of fields, and no two give the same fields.
  ghost predicate Spells<V(!new)>(fields: V -> seq<Entry>, width: nat) {
    && (forall v: V :: |fields(v)| == width)
    && (forall v: V, w: V :: fields(v) == fields(w) ==> v == w)
  }

  function Flat<V>(fields: V -> seq<Entry>, vs: seq<V>): seq<Entry> {
    if |vs| == 0 then [] else Flat(fields, vs[..|vs| - 1]) + fields(vs[|vs| - 1])
  }

  lemma FlatPush<V>(fields: V -> seq<Entry>, vs: seq<V>, n: nat)
    requires n < |vs|
    ensures Flat(fields, vs[..n + 1]) == Flat(fields, vs[..n]) + fields(vs[n])
  {
    assert vs[..n + 1][..n] == vs[..n] && vs[..n + 1][n] == vs[n];
  }

  lemma {:induction false} FlatUnique<V(!new)>(fields: V -> seq<Entry>, width: nat, vs: seq<V>, ws: seq<V>, tail: seq<Entry>, tail': seq<Entry>)
    requires Spells(fields, width) && |vs| == |ws| && Flat(fields, vs) + tail == Flat(fields, ws) + tail'
    ensures vs == ws && tail == tail'
  {
    var n := |vs| - 1;
    if n >= 0 {
      var v, w := vs[n], ws[n];
      Regrouped(Flat(fields, vs[..n]), fields(v), tail);
      Regrouped(Flat(fields, ws[..n]), fields(w), tail');
      FlatUnique(fields, width, vs[..n], ws[..n], fields(v) + tail, fields(w) + tail');
      SplitsAlike(fields(v), tail, fields(w), tail');
      assert vs == vs[..n] + [v] && ws == ws[..n] + [w];
    } else {
      assert [] + tail == tail && [] + tail' == tail';
    }
  }

  lemma Regrouped(a: seq<Entry>, b: seq<Entry>, c: seq<Entry>)
    ensures a + b + c == a + (b + c)
  {
  }

  lemma SplitsAlike(a: seq<Entry>, b: seq<Entry>, a': seq<Entry>, b': seq<Entry>)
    requires |a| == |a'| && a + b == a' + b'
    ensures a == a' && b == b'
  {
    assert a == (a + b)[..|a|] == (a' + b')[..|a|] == a';
    assert b == (a + b)[|a|..] == (a' + b')[|a|..] == b';
  }

  // The number of items, then their fields.
  function Counted<V>(name: Bytes, fields: V -> seq<Entry>, vs: seq<V>): seq<Entry> {
    [Entry(name, Len(|vs|))] + Flat(fields, vs)
  }

  lemma LenInjective(x: nat, y: nat)
    requires x < SIZE_LIMIT && y < SIZE_LIMIT && Len(x) == Len(y)
    ensures x == y
  {
    Widths();
    FromToBe(x, 8);
    FromToBe(y, 8);
  }

  lemma U32Injective(p: ParticipantIndex, p': ParticipantIndex)
    requires U32(p) == U32(p')
    ensures p == p'
  {
    Widths();
    FromToBe(p, 4);
    FromToBe(p', 4);
  }

  // A counted list ends where it says, whatever follows.
  lemma CountedUnique<V(!new)>(name: Bytes, fields: V -> seq<Entry>, width: nat, head: seq<Entry>, head': seq<Entry>,
                               vs: seq<V>, ws: seq<V>, tail: seq<Entry>, tail': seq<Entry>)
    requires Spells(fields, width) && |head| == |head'| && |vs| < SIZE_LIMIT && |ws| < SIZE_LIMIT
    requires head + (Counted(name, fields, vs) + tail) == head' + (Counted(name, fields, ws) + tail')
    ensures head == head' && vs == ws && tail == tail'
  {
    SplitsAlike(head, Counted(name, fields, vs) + tail, head', Counted(name, fields, ws) + tail');
    var n, m := [Entry(name, Len(|vs|))], [Entry(name, Len(|ws|))];
    Regrouped(n, Flat(fields, vs), tail);
    Regrouped(m, Flat(fields, ws), tail');
    SplitsAlike(n, Flat(fields, vs) + tail, m, Flat(fields, ws) + tail');
    assert n[0].data == m[0].data;
    LenInjective(|vs|, |ws|);
    FlatUnique(fields, width, vs, ws, tail, tail');
  }

  lemma CountedLast<V(!new)>(name: Bytes, fields: V -> seq<Entry>, width: nat, head: seq<Entry>, head': seq<Entry>, vs: seq<V>, ws: seq<V>)
    requires Spells(fields, width) && |head| == |head'| && |vs| < SIZE_LIMIT && |ws| < SIZE_LIMIT
    requires head + Counted(name, fields, vs) == head' + Counted(name, fields, ws)
    ensures head == head' && vs == ws
  {
    assert Counted(name, fields, vs) + [] == Counted(name, fields, vs) && Counted(name, fields, ws) + [] == Counted(name, fields, ws);
    CountedUnique(name, fields, width, head, head', vs, ws, [], []);
  }

  lemma {:induction false} FlatShort<V(!new)>(fields: V -> seq<Entry>, vs: seq<V>)
    requires forall i :: 0 <= i < |vs| ==> AllShort(fields(vs[i]))
    ensures AllShort(Flat(fields, vs))
  {
    if |vs| > 0 {
      FlatShort(fields, vs[..|vs| - 1]);
    }
  }

  // ----- the roots of the key generation -----

  const PROTOCOL_VERSION: nat := 2

  function CommitmentFields(c: Codec): Element -> seq<Entry> {
    (e: Element) => [Entry(Ascii("commitment"), c.encodeElement(e))]
  }

  function ShareFields(c: Codec): ((ParticipantIndex, EncryptedShare)) -> seq<Entry> {
    (s: (ParticipantIndex, EncryptedShare)) =>
      [Entry(Ascii("encrypted-receiver"), U32(s.0)), Entry(Ascii("pad-commitment"), c.encodeElement(s.1.padCommitment)),
       Entry(Ascii("encrypted-share"), c.encodeScalar(s.1.encryptedShare))]
  }

  function RootFields(): ((ParticipantIndex, Bytes)) -> seq<Entry> {
    (r: (ParticipantIndex, Bytes)) => [Entry(Ascii("dealer"), U32(r.0)), Entry(Ascii("dealing-root"), r.1)]
  }

  function KeyFields(c: Codec): ((ParticipantIndex, Element)) -> seq<Entry> {
    (k: (ParticipantIndex, Element)) => [Entry(Ascii("participant"), U32(k.0)), Entry(Ascii("public-key"), c.encodeElement(k.1))]
  }

  function DealingHead(c: Codec, m: DealerMessage): (r: seq<Entry>)
    ensures |r| == 6
  {
    [Entry(Ascii("version"), U32(PROTOCOL_VERSION)), Entry(Ascii("backend"), c.backendId), Entry(Ascii("session"), m.sessionId),
     Entry(Ascii("registry"), m.registryRoot), Entry(Ascii("dealer"), U32(m.dealer)), Entry(Ascii("msg-i"), m.nonce)]
  }

  function DealingEntries(c: Codec, m: DealerMessage): seq<Entry> {
    DealingHead(c, m)
      + (Counted(Ascii("commitment-len"), CommitmentFields(c), m.commitment)
      + Counted(Ascii("encrypted-shares-len"), ShareFields(c), Listed(m.encryptedShares)))
  }

  function CompletionEntries(c: Codec, roots: Pairs<Bytes>): seq<Entry> {
    [Entry(Ascii("backend"), c.backendId)] + Counted(Ascii("dealings-len"), RootFields(), roots)
  }

  function RegistryEntries(c: Codec, keys: map<ParticipantIndex, Element>): seq<Entry> {
    [Entry(Ascii("backend"), c.backendId)] + Counted(Ascii("len"), KeyFields(c), Listed(keys))
  }

  lemma CommitmentSpells(c: Codec)
    requires c.Canonical()
    ensures Spells(CommitmentFields(c), 1)
  {
    ElementWidth(c);
    forall v: Element, w: Element | CommitmentFields(c)(v) == CommitmentFields(c)(w)
      ensures v == w
    {
      assert CommitmentFields(c)(v)[0].data == CommitmentFields(c)(w)[0].data;
    }
  }

  lemma ShareSpells(c: Codec)
    requires c.Canonical()
    ensures Spells(ShareFields(c), 3)
  {
    ElementWidth(c);
    ScalarWidth(c);
    forall v: (ParticipantIndex, EncryptedShare), w: (ParticipantIndex, EncryptedShare) | ShareFields(c)(v) == ShareFields(c)(w)
      ensures v == w
    {
      var x, y := ShareFields(c)(v), ShareFields(c)(w);
      assert x[0].data == y[0].data && x[1].data == y[1].data && x[2].data == y[2].data;
      U32Injective(v.0, w.0);
      assert v.1.padCommitment == w.1.padCommitment && v.1.encryptedShare == w.1.encryptedShare;
    }
  }

  lemma RootSpells()
    ensures Spells(RootFields(), 2)
  {
    forall v: (ParticipantIndex, Bytes), w: (ParticipantIndex, Bytes) | RootFields()(v) == RootFields()(w)
      ensures v == w
    {
      var x, y := RootFields()(v), RootFields()(w);
      assert x[0].data == y[0].data && x[1].data == y[1].data;
      U32Injective(v.0, w.0);
    }
  }

  lemma KeySpells(c: Codec)
    requires c.Canonical()
    ensures Spells(KeyFields(c), 2)
  {
    ElementWidth(c);
    forall v: (ParticipantIndex, Element), w: (ParticipantIndex, Element) | KeyFields(c)(v) == KeyFields(c)(w)
      ensures v == w
    {
      var x, y := KeyFields(c)(v), KeyFields(c)(w);
      assert x[0].data == y[0].data && x[1].data == y[1].data;
      U32Injective(v.0, w.0);
    }
  }

  // The fields of a dealing determine it, but for its proof and root.
  lemma DealingEntriesBind(c: Codec, m: DealerMessage, m': DealerMessage)
    requires c.Canonical() && ValidMessage(m) && ValidMessage(m') && DealingEntries(c, m) == DealingEntries(c, m')
    ensures m' == m.(proof := m'.proof, transcriptRoot := m'.transcriptRoot)
  {
    CommitmentSpells(c);
    ShareSpells(c);
    var shares, shares' := Listed(m.encryptedShares), Listed(m'.encryptedShares);
    CountedUnique(Ascii("commitment-len"), CommitmentFields(c), 1, DealingHead(c, m), DealingHead(c, m'), m.commitment, m'.commitment,
                  Counted(Ascii("encrypted-shares-len"), ShareFields(c), shares),
                  Counted(Ascii("encrypted-shares-len"), ShareFields(c), shares'));
    SameHead(c, m, m');
    CountedLast(Ascii("encrypted-shares-len"), ShareFields(c), 3, [], [], shares, shares');
    FromPairsListed(m.encryptedShares);
    FromPairsListed(m'.encryptedShares);
  }

  lemma SameHead(c: Codec, m: DealerMessage, m': DealerMessage)
    requires DealingHead(c, m) == DealingHead(c, m')
    ensures m.sessionId == m'.sessionId && m.registryRoot == m'.registryRoot && m.dealer == m'.dealer && m.nonce == m'.nonce
  {
    var x, y := DealingHead(c, m), DealingHead(c, m');
    assert x[2].data == y[2].data && x[3].data == y[3].data && x[4].data == y[4].data && x[5].data == y[5].data;
    U32Injective(m.dealer, m'.dealer);
  }

  lemma CompletionEntriesBind(c: Codec, roots: Pairs<Bytes>, roots': Pairs<Bytes>)
    requires |roots| < SIZE_LIMIT && |roots'| < SIZE_LIMIT && CompletionEntries(c, roots) == CompletionEntries(c, roots')
    ensures roots == roots'
  {
    RootSpells();
    var head := [Entry(Ascii("backend"), c.backendId)];
    CountedLast(Ascii("dealings-len"), RootFields(), 2, head, head, roots, roots');
  }

  lemma RegistryEntriesBind(c: Codec, keys: map<ParticipantIndex, Element>, keys': map<ParticipantIndex, Element>)
    requires c.Canonical() && |keys| < SIZE_LIMIT && |keys'| < SIZE_LIMIT && RegistryEntries(c, keys) == RegistryEntries(c, keys')
    ensures keys == keys'
  {
    KeySpells(c);
    var head := [Entry(Ascii("backend"), c.backendId)];
    CountedLast(Ascii("len"), KeyFields(c), 2, head, head, Listed(keys), Listed(keys'));
    FromPairsListed(keys);
    FromPairsListed(keys');
  }

  predicate NarrowCodec(c: Codec) {
    c.elementBytes < SIZE_LIMIT && c.scalarBytes < SIZE_LIMIT
  }

  lemma ShareShort(c: Codec, share: (ParticipantIndex, EncryptedShare))
    requires c.Canonical() && NarrowCodec(c)
    ensures AllShort(ShareFields(c)(share))
  {
    c.CanonicalMeans();
    assert |c.encodeElement(share.1.padCommitment)| == c.elementBytes && |c.encodeScalar(share.1.encryptedShare)| == c.scalarBytes;
  }

  lemma HeadShort(c: Codec, m: DealerMessage)
    requires c.Canonical() && ValidMessage(m)
    ensures AllShort(DealingHead(c, m))
  {
    c.CanonicalMeans();
  }

  lemma CommitmentShort(c: Codec, commitment: seq<Element>)
    requires c.Canonical() && NarrowCodec(c)
    ensures AllShort(Counted(Ascii("commitment-len"), CommitmentFields(c), commitment))
  {
    c.CanonicalMeans();
    assert forall i :: 0 <= i < |commitment| ==> AllShort(CommitmentFields(c)(commitment[i]));
    FlatShort(CommitmentFields(c), commitment);
  }

  lemma SharesShort(c: Codec, shares: Pairs<EncryptedShare>)
    requires c.Canonical() && NarrowCodec(c)
    ensures AllShort(Counted(Ascii("encrypted-shares-len"), ShareFields(c), shares))
  {
    forall i | 0 <= i < |shares|
      ensures AllShort(ShareFields(c)(shares[i]))
    {
      ShareShort(c, shares[i]);
    }
    FlatShort(ShareFields(c), shares);
  }

  lemma DealingShort(c: Codec, m: DealerMessage)
    requires c.Canonical() && NarrowCodec(c) && ValidMessage(m)
    ensures AllShort(DealingEntries(c, m))
  {
    HeadShort(c, m);
    CommitmentShort(c, m.commitment);
    SharesShort(c, Listed(m.encryptedShares));
  }

  // The absorbed bytes determine a dealing that came over the wire, but for its proof and
  // root: equal roots of different dealings are a collision of the hash.
  lemma DealingTranscriptBinds(c: Codec, m: DealerMessage, m': DealerMessage)
    requires c.Canonical() && NarrowCodec(c) && ValidMessage(m) && ValidMessage(m')
    requires Absorbed(Ascii("dealing"), DealingEntries(c, m)) == Absorbed(Ascii("dealing"), DealingEntries(c, m'))
    ensures m' == m.(proof := m'.proof, transcriptRoot := m'.transcriptRoot)
  {
    DealingShort(c, m);
    DealingShort(c, m');
    AbsorbedUnique(Ascii("dealing"), Ascii("dealing"), DealingEntries(c, m), DealingEntries(c, m'));
    DealingEntriesBind(c, m, m');
  }

  predicate ShortRoots(roots: Pairs<Bytes>) {
    |roots| < SIZE_LIMIT && forall i :: 0 <= i < |roots| ==> |roots[i].1| < SIZE_LIMIT
  }

  lemma CompletionShort(c: Codec, roots: Pairs<Bytes>)
    requires c.Canonical() && ShortRoots(roots)
    ensures AllShort(CompletionEntries(c, roots))
  {
    c.CanonicalMeans();
    assert forall i :: 0 <= i < |roots| ==> AllShort(RootFields()(roots[i]));
    FlatShort(RootFields(), roots);
  }

  lemma CompletionTranscriptBinds(c: Codec, roots: Pairs<Bytes>, roots': Pairs<Bytes>)
    requires c.Canonical() && ShortRoots(roots) && ShortRoots(roots')
    requires Absorbed(Ascii("completion"), CompletionEntries(c, roots)) == Absorbed(Ascii("completion"), CompletionEntries(c, roots'))
    ensures roots == roots'
  {
    CompletionShort(c, roots);
    CompletionShort(c, roots');
    AbsorbedUnique(Ascii("completion"), Ascii("completion"), CompletionEntries(c, roots), CompletionEntries(c, roots'));
    CompletionEntriesBind(c, roots, roots');
  }

  lemma RegistryShort(c: Codec, keys: map<ParticipantIndex, Element>)
    requires c.Canonical() && NarrowCodec(c)
    ensures AllShort(RegistryEntries(c, keys))
  {
    c.CanonicalMeans();
    var listed := Listed(keys);
    assert forall i :: 0 <= i < |listed| ==> AllShort(KeyFields(c)(listed[i]));
    FlatShort(KeyFields(c), listed);
  }

  lemma RegistryTranscriptBinds(c: Codec, keys: map<ParticipantIndex, Element>, keys': map<ParticipantIndex, Element>)
    requires c.Canonical() && NarrowCodec(c) && |keys| < SIZE_LIMIT && |keys'| < SIZE_LIMIT
    requires Absorbed(Ascii("registry"), RegistryEntries(c, keys)) == Absorbed(Ascii("registry"), RegistryEntries(c, keys'))
    ensures keys == keys'
  {
    RegistryShort(c, keys);
    RegistryShort(c, keys');
    AbsorbedUnique(Ascii("registry"), Ascii("registry"), RegistryEntries(c, keys), RegistryEntries(c, keys'));
    RegistryEntriesBind(c, keys, keys');
  }

  // ----- the root functions -----

  method DealingRoot(hash: Hash, c: Codec, m: DealerMessage) returns (root: Bytes)
    ensures root == hash(Absorbed(Ascii("dealing"), DealingEntries(c, m)))
  {
    var t := new TranscriptBuilder(Ascii("dealing"));
    t.AppendU32(Ascii("version"), PROTOCOL_VERSION);
    t.AppendBytes(Ascii("backend"), c.backendId);
    t.AppendBytes(Ascii("session"), m.sessionId);
    t.AppendBytes(Ascii("registry"), m.registryRoot);
    t.AppendU32(Ascii("dealer"), m.dealer);
    t.AppendBytes(Ascii("msg-i"), m.nonce);
    ghost var head := DealingHead(c, m);
    assert t.entries == head;
    AppendCommitment(t, c, m.commitment);
    AppendShares(t, c, m.encryptedShares);
    ghost var coefficients := Counted(Ascii("commitment-len"), CommitmentFields(c), m.commitment);
    ghost var shares := Counted(Ascii("encrypted-shares-len"), ShareFields(c), Listed(m.encryptedShares));
    Regrouped(head, coefficients, shares);
    root := t.Root(hash);
  }

  method AppendCommitment(t: TranscriptBuilder, c: Codec, commitment: seq<Element>)
    requires t.Valid()
    modifies t
    ensures t.Valid() && t.name == old(t.name)
    ensures t.entries == old(t.entries) + Counted(Ascii("commitment-len"), CommitmentFields(c), commitment)
  {
    ghost var before, count := t.entries, [Entry(Ascii("commitment-len"), Len(|commitment|))];
    t.AppendUsize(Ascii("commitment-len"), |commitment|);
    assert t.entries == before + count + Flat(CommitmentFields(c), commitment[..0]);
    for i := 0 to |commitment|
      invariant t.Valid() && t.name == old(t.name)
      invariant t.entries == before + count + Flat(CommitmentFields(c), commitment[..i])
    {
      FlatPush(CommitmentFields(c), commitment, i);
      Regrouped(before + count, Flat(CommitmentFields(c), commitment[..i]), CommitmentFields(c)(commitment[i]));
      t.AppendBytes(Ascii("commitment"), c.encodeElement(commitment[i]));
    }
    assert commitment[..|commitment|] == commitment;
    Regrouped(before, count, Flat(CommitmentFields(c), commitment));
  }

  method AppendShares(t: TranscriptBuilder, c: Codec, encryptedShares: EncryptedShares)
    requires t.Valid()
    modifies t
    ensures t.Valid() && t.name == old(t.name)
    ensures t.entries == old(t.entries) + Counted(Ascii("encrypted-shares-len"), ShareFields(c), Listed(encryptedShares))
  {
    var shares := Listed(encryptedShares);
    ghost var before, count := t.entries, [Entry(Ascii("encrypted-shares-len"), Len(|shares|))];
    t.AppendUsize(Ascii("encrypted-shares-len"), |shares|);
    assert t.entries == before + count + Flat(ShareFields(c), shares[..0]);
    for i := 0 to |shares|
      invariant t.Valid() && t.name == old(t.name)
      invariant t.entries == before + count + Flat(ShareFields(c), shares[..i])
    {
      ghost var now := t.entries;
      FlatPush(ShareFields(c), shares, i);
      Regrouped(before + count, Flat(ShareFields(c), shares[..i]), ShareFields(c)(shares[i]));
      t.AppendU32(Ascii("encrypted-receiver"), shares[i].0);
      t.AppendBytes(Ascii("pad-commitment"), c.encodeElement(shares[i].1.padCommitment));
      t.AppendBytes(Ascii("encrypted-share"), c.encodeScalar(shares[i].1.encryptedShare));
      assert t.entries == now + ShareFields(c)(shares[i]);
    }
    assert shares[..|shares|] == shares;
    Regrouped(before, count, Flat(ShareFields(c), shares));
  }

  method CompletionRoot(hash: Hash, c: Codec, roots: Pairs<Bytes>) returns (root: Bytes)
    ensures root == hash(Absorbed(Ascii("completion"), CompletionEntries(c, roots)))
  {
    var t := new TranscriptBuilder(Ascii("completion"));
    t.AppendBytes(Ascii("backend"), c.backendId);
    t.AppendUsize(Ascii("dealings-len"), |roots|);
    ghost var head, count := [Entry(Ascii("backend"), c.backendId)], [Entry(Ascii("dealings-len"), Len(|roots|))];
    assert t.entries == head + count + Flat(RootFields(), roots[..0]);
    for i := 0 to |roots|
      invariant t.Valid() && t.name == Ascii("completion")
      invariant t.entries == head + count + Flat(RootFields(), roots[..i])
    {
      ghost var now := t.entries;
      FlatPush(RootFields(), roots, i);
      Regrouped(head + count, Flat(RootFields(), roots[..i]), RootFields()(roots[i]));
      t.AppendU32(Ascii("dealer"), roots[i].0);
      t.AppendBytes(Ascii("dealing-root"), roots[i].1);
      assert t.entries == now + RootFields()(roots[i]);
    }
    assert roots[..|roots|] == roots;
    Regrouped(head, count, Flat(RootFields(), roots));
    root := t.Root(hash);
  }

  method AppendKeys(t: TranscriptBuilder, c: Codec, participants: map<ParticipantIndex, Element>)
    requires t.Valid()
    modifies t
    ensures t.Valid() && t.name == old(t.name)
    ensures t.entries == old(t.entries) + Counted(Ascii("len"), KeyFields(c), Listed(participants))
  {
    var keys := Listed(participants);
    ghost var before, count := t.entries, [Entry(Ascii("len"), Len(|keys|))];
    t.AppendUsize(Ascii("len"), |keys|);
    assert t.entries == before + count + Flat(KeyFields(c), keys[..0]);
    for i := 0 to |keys|
      invariant t.Valid() && t.name == old(t.name)
      invariant t.entries == before + count + Flat(KeyFields(c), keys[..i])
    {
      ghost var now := t.entries;
      FlatPush(KeyFields(c), keys, i);
      Regrouped(before + count, Flat(KeyFields(c), keys[..i]), KeyFields(c)(keys[i]));
      t.AppendU32(Ascii("participant"), keys[i].0);
      t.AppendBytes(Ascii("public-key"), c.encodeElement(keys[i].1));
      assert t.entries == now + KeyFields(c)(keys[i]);
    }
    assert keys[..|keys|] == keys;
    Regrouped(before, count, Flat(KeyFields(c), keys));
  }

  method RegistryRoot(hash: Hash, c: Codec, participants: map<ParticipantIndex, Element>) returns (root: Bytes)
    ensures root == hash(Absorbed(Ascii("registry"), RegistryEntries(c, participants)))
  {
    var t := new TranscriptBuilder(Ascii("registry"));
    t.AppendBytes(Ascii("backend"), c.backendId);
    AppendKeys(t, c, participants);
    root := t.Root(hash);
  }

  // ----- the root of one receiver's statement -----

  function StatementHead(c: Codec, st: EvrfStatement): (r: seq<Entry>)
    ensures |r| == 11
  {
    [Entry(Ascii("version"), U32(PROTOCOL_VERSION)), Entry(Ascii("backend"), c.backendId), Entry(Ascii("session"), st.sessionId),
     Entry(Ascii("registry"), st.registryRoot), Entry(Ascii("threshold"), Len(st.threshold)), Entry(Ascii("dealer"), U32(st.dealer)),
     Entry(Ascii("receiver"), U32(st.receiver)), Entry(Ascii("msg-i"), st.nonce), Entry(Ascii("beta"), c.encodeScalar(st.beta)),
     Entry(Ascii("dealer-pk"), c.encodeElement(st.dealerKey)), Entry(Ascii("receiver-pk"), c.encodeElement(st.receiverKey))]
  }

  function StatementTail(c: Codec, st: EvrfStatement): (r: seq<Entry>)
    ensures |r| == 4
  {
    [Entry(Ascii("share-commitment"), c.encodeElement(st.shareCommitment)), Entry(Ascii("pad-commitment"), c.encodeElement(st.padCommitment)),
     Entry(Ascii("encrypted-share"), c.encodeScalar(st.encryptedShare)), Entry(Ascii("dealing-root"), st.transcriptRoot)]
  }

  function StatementEntries(c: Codec, st: EvrfStatement): seq<Entry> {
    StatementHead(c, st) + (Counted(Ascii("commitment-len"), CommitmentFields(c), st.coefficients) + StatementTail(c, st))
  }

  predicate ValidStatement(st: EvrfStatement) {
    && |st.sessionId| == |st.registryRoot| == |st.nonce| == |st.transcriptRoot| == DIGEST_BYTES
    && st.threshold < SIZE_LIMIT && |st.coefficients| < SIZE_LIMIT
  }

  lemma SameStatementHead(c: Codec, st: EvrfStatement, st': EvrfStatement)
    requires c.Canonical() && ValidStatement(st) && ValidStatement(st') && StatementHead(c, st) == StatementHead(c, st')
    ensures st.sessionId == st'.sessionId && st.registryRoot == st'.registryRoot && st.threshold == st'.threshold
    ensures st.dealer == st'.dealer && st.receiver == st'.receiver && st.nonce == st'.nonce
    ensures st.beta == st'.beta && st.dealerKey == st'.dealerKey && st.receiverKey == st'.receiverKey
  {
    var x, y := StatementHead(c, st), StatementHead(c, st');
    ElementWidth(c);
    ScalarWidth(c);
    assert x[2].data == y[2].data && x[3].data == y[3].data && x[4].data == y[4].data && x[5].data == y[5].data && x[6].data == y[6].data;
    assert x[7].data == y[7].data && x[8].data == y[8].data && x[9].data == y[9].data && x[10].data == y[10].data;
    LenInjective(st.threshold, st'.threshold);
    U32Injective(st.dealer, st'.dealer);
    U32Injective(st.receiver, st'.receiver);
  }

  lemma SameStatementTail(c: Codec, st: EvrfStatement, st': EvrfStatement)
    requires c.Canonical() && StatementTail(c, st) == StatementTail(c, st')
    ensures st.shareCommitment == st'.shareCommitment && st.padCommitment == st'.padCommitment
    ensures st.encryptedShare == st'.encryptedShare && st.transcriptRoot == st'.transcriptRoot
  {
    var x, y := StatementTail(c, st), StatementTail(c, st');
    ElementWidth(c);
    ScalarWidth(c);
    assert x[0].data == y[0].data && x[1].data == y[1].data && x[2].data == y[2].data && x[3].data == y[3].data;
  }

  lemma StatementShort(c: Codec, st: EvrfStatement)
    requires c.Canonical() && NarrowCodec(c) && ValidStatement(st)
    ensures AllShort(StatementHead(c, st)) && AllShort(StatementTail(c, st)) && AllShort(StatementEntries(c, st))
  {
    c.CanonicalMeans();
    CommitmentShort(c, st.coefficients);
    assert |c.encodeElement(st.dealerKey)| == |c.encodeElement(st.receiverKey)| == |c.encodeElement(st.shareCommitment)| == c.elementBytes;
    assert |c.encodeElement(st.padCommitment)| == c.elementBytes;
    assert |c.encodeScalar(st.beta)| == |c.encodeScalar(st.encryptedShare)| == c.scalarBytes;
  }

  // The absorbed bytes determine every field of a statement.
  lemma StatementTranscriptBinds(c: Codec, st: EvrfStatement, st': EvrfStatement)
    requires c.Canonical() && NarrowCodec(c) && ValidStatement(st) && ValidStatement(st')
    requires Absorbed(Ascii("evrf-statement"), StatementEntries(c, st)) == Absorbed(Ascii("evrf-statement"), StatementEntries(c, st'))
    ensures st == st'
  {
    StatementShort(c, st);
    StatementShort(c, st');
    AbsorbedUnique(Ascii("evrf-statement"), Ascii("evrf-statement"), StatementEntries(c, st), StatementEntries(c, st'));
    CommitmentSpells(c);
    CountedUnique(Ascii("commitment-len"), CommitmentFields(c), 1, StatementHead(c, st), StatementHead(c, st'),
                  st.coefficients, st'.coefficients, StatementTail(c, st), StatementTail(c, st'));
    SameStatementHead(c, st, st');
    SameStatementTail(c, st, st');
  }

  method StatementRoot(hash: Hash, c: Codec, st: EvrfStatement) returns (root: Bytes)
    ensures root == hash(Absorbed(Ascii("evrf-statement"), StatementEntries(c, st)))
  {
    var t := new TranscriptBuilder(Ascii("evrf-statement"));
    AppendStatementHead(t, c, st);
    AppendCommitment(t, c, st.coefficients);
    ghost var coefficients := Counted(Ascii("commitment-len"), CommitmentFields(c), st.coefficients);
    ghost var before := t.entries;
    t.AppendBytes(Ascii("share-commitment"), c.encodeElement(st.shareCommitment));
    t.AppendBytes(Ascii("pad-commitment"), c.encodeElement(st.padCommitment));
    t.AppendBytes(Ascii("encrypted-share"), c.encodeScalar(st.encryptedShare));
    t.AppendBytes(Ascii("dealing-root"), st.transcriptRoot);
    assert t.entries == before + StatementTail(c, st);
    Regrouped(StatementHead(c, st), coefficients, StatementTail(c, st));
    root := t.Root(hash);
  }

  method AppendStatementHead(t: TranscriptBuilder, c: Codec, st: EvrfStatement)
    requires t.Valid() && t.entries == []
    modifies t
    ensures t.Valid() && t.name == old(t.name) && t.entries == StatementHead(c, st)
  {
    AppendStatementContext(t, c, st);
    t.AppendBytes(Ascii("msg-i"), st.nonce);
    t.AppendBytes(Ascii("beta"), c.encodeScalar(st.beta));
    t.AppendBytes(Ascii("dealer-pk"), c.encodeElement(st.dealerKey));
    t.AppendBytes(Ascii("receiver-pk"), c.encodeElement(st.receiverKey));
  }

  method AppendStatementContext(t: TranscriptBuilder, c: Codec, st: EvrfStatement)
    requires t.Valid() && t.entries == []
    modifies t
    ensures t.Valid() && t.name == old(t.name) && t.entries == StatementHead(c, st)[..7]
  {
    t.AppendU32(Ascii("version"), PROTOCOL_VERSION);
    t.AppendBytes(Ascii("backend"), c.backendId);
    t.AppendBytes(Ascii("session"), st.sessionId);
    t.AppendBytes(Ascii("registry"), st.registryRoot);
    t.AppendUsize(Ascii("threshold"), st.threshold);
    t.AppendU32(Ascii("dealer"), st.dealer);
    t.AppendU32(Ascii("receiver"), st.receiver);
  }
}
