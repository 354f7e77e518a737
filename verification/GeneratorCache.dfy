// The chains of independent generators and the process-wide cache of their prefixes:
// generators.rs. SHAKE256 and the hash to the curve are parameters.
module GeneratorCache {
  import opened Bits
  import opened Scalars

  type Label = seq<Byte>

  // `xof(absorbed, k)` is byte k of the output stream; `toPoint` hashes 64 uniform bytes
  // to a point of the given curve cycle.
  datatype Hashing = Hashing(xof: (seq<Byte>, nat) -> Byte, toPoint: (nat, seq<Byte>) -> Element)

  datatype Key = Key(cycle: nat, chain: Label)

  const SEED_BYTES: nat := 64
  const MAX_HASH_CHUNK_SIZE: nat := 64
  // "GeneratorsChain"
  const DOMAIN: seq<Byte> := [71, 101, 110, 101, 114, 97, 116, 111, 114, 115, 67, 104, 97, 105, 110]

  // ----- the chain -----

  function Seed(h: Hashing, chain: Label, i: nat): seq<Byte> {
    seq<Byte>(SEED_BYTES, k requires 0 <= k < SEED_BYTES => h.xof(DOMAIN + chain, SEED_BYTES * i + k))
  }

  function Seeds(h: Hashing, chain: Label, from: nat, n: nat): (r: seq<seq<Byte>>)
    ensures |r| == n
  {
    seq(n, i requires 0 <= i < n => Seed(h, chain, from + i))
  }

  // The first n generators of a chain: a function of label and position only.
  function Prefix(h: Hashing, key: Key, n: nat): (r: seq<Element>)
    ensures |r| == n
  {
    seq<Element>(n, i requires 0 <= i < n => h.toPoint(key.cycle, Seed(h, key.chain, i)))
  }

  function Hashed(h: Hashing, cycle: nat, uniforms: seq<seq<Byte>>): (r: seq<Element>)
    ensures |r| == |uniforms|
  {
    seq<Element>(|uniforms|, i requires 0 <= i < |uniforms| => h.toPoint(cycle, uniforms[i]))
  }

  // A reader over the output stream, 64 bytes a time.
  class GeneratorsChain {
    const h: Hashing
    const chain: Label
    var offset: nat

    constructor (h: Hashing, chain: Label)
      ensures this.h == h && this.chain == chain && offset == 0
    {
      this.h := h;
      this.chain := chain;
      offset := 0;
    }

    method Next(ghost position: nat) returns (uniform: seq<Byte>)
      requires offset == SEED_BYTES * position
      modifies this
      ensures offset == SEED_BYTES * (position + 1) && uniform == Seed(h, chain, position)
    {
      uniform := [];
      for k := 0 to SEED_BYTES
        invariant offset == SEED_BYTES * position + k
        invariant uniform == Seed(h, chain, position)[..k]
      {
        uniform := uniform + [h.xof(DOMAIN + chain, offset)];
        offset := offset + 1;
      }
    }

    method FastForward(n: nat)
      requires offset == 0
      modifies this
      ensures offset == SEED_BYTES * n
    {
      for i := 0 to n
        invariant offset == SEED_BYTES * i
      {
        var _ := Next(i);
      }
    }

    method Take(ghost from: nat, n: nat) returns (uniforms: seq<seq<Byte>>)
      requires offset == SEED_BYTES * from
      modifies this
      ensures uniforms == Seeds(h, chain, from, n)
    {
      uniforms := [];
      for i := 0 to n
        invariant offset == SEED_BYTES * (from + i)
        invariant uniforms == Seeds(h, chain, from, n)[..i]
      {
        var uniform := Next(from + i);
        uniforms := uniforms + [uniform];
      }
    }
  }

  function HashChunkSize(count: nat, threads: nat): (r: nat)
    ensures 1 <= r <= MAX_HASH_CHUNK_SIZE
  {
    var divisor := 4 * if threads == 0 then 1 else threads;
    var perTask := (count + divisor - 1) / divisor;
    if perTask < 1 then 1 else if perTask > MAX_HASH_CHUNK_SIZE then MAX_HASH_CHUNK_SIZE else perTask
  }

  // Splitting the seeds into chunks does not show in the result.
  method HashInChunks(h: Hashing, cycle: nat, uniforms: seq<seq<Byte>>, threads: nat) returns (points: seq<Element>)
    ensures points == Hashed(h, cycle, uniforms)
  {
    var size := HashChunkSize(|uniforms|, threads);
    points := [];
    var i := 0;
    while i < |uniforms|
      invariant 0 <= i <= |uniforms| && points == Hashed(h, cycle, uniforms)[..i]
    {
      var end := if i + size < |uniforms| then i + size else |uniforms|;
      points := points + Hashed(h, cycle, uniforms[i..end]);
      i := end;
    }
  }

  // Everything a derivation does outside the lock.
  method Extend(h: Hashing, key: Key, have: seq<Element>, capacity: nat, threads: nat) returns (extended: seq<Element>)
    requires have == Prefix(h, key, |have|) && |have| <= capacity
    ensures extended == Prefix(h, key, capacity)
  {
    var chain := new GeneratorsChain(h, key.chain);
    chain.FastForward(|have|);
    var uniforms := chain.Take(|have|, capacity - |have|);
    var points := HashInChunks(h, key.cycle, uniforms, threads);
    extended := have + points;
  }

  // ----- the cache as a protocol between threads -----

  type Entries = map<Key, seq<Element>>

  function Cached(entries: Entries, key: Key): seq<Element> {
    if key in entries then entries[key] else []
  }

  // Every cached vector is a prefix of its chain.
  ghost predicate Sound(h: Hashing, entries: Entries) {
    forall key :: key in entries ==> entries[key] == Prefix(h, key, |entries[key]|)
  }

  ghost predicate Grows(before: Entries, after: Entries) {
    forall key :: |Cached(before, key)| <= |Cached(after, key)|
  }

  // Where a thread is in its retry loop: about to read the cache, about to derive what it
  // misses, about to store it, or done. Each phase but the last holds no lock.
  datatype Phase =
    | Reading
    | Deriving(have: seq<Element>)
    | Storing(have: seq<Element>, extended: seq<Element>)
    | Returned(points: seq<Element>)

  // `passes` counts the passes through the loop.
  datatype Thread = Thread(key: Key, capacity: nat, phase: Phase, passes: nat)

  datatype State = State(entries: Entries, threads: seq<Thread>)

  datatype Action = Advance(thread: nat) | Clear

  function Read(entries: Entries, t: Thread): Thread {
    var have := Cached(entries, t.key);
    t.(phase := if |have| >= t.capacity then Returned(have) else Deriving(have), passes := t.passes + 1)
  }

  // The compare-and-store: only over a vector as long as the one that was read.
  function Store(entries: Entries, key: Key, have: seq<Element>, extended: seq<Element>): Entries {
    var slot := Cached(entries, key);
    entries[key := if |slot| == |have| then extended else slot]
  }

  function Step(h: Hashing, s: State, action: Action): State {
    match action
    case Clear => s.(entries := map[])
    case Advance(i) =>
      if i >= |s.threads| then s
      else
        var t := s.threads[i];
        match t.phase
        case Reading => s.(threads := s.threads[i := Read(s.entries, t)])
        case Deriving(have) =>
          s.(threads := s.threads[i := t.(phase := Storing(have, Derived(h, t.key, have, t.capacity)))])
        case Storing(have, extended) =>
          State(Store(s.entries, t.key, have, extended), s.threads[i := t.(phase := Reading)])
        case Returned(_) => s
  }

  // What `Extend` computes, for any vector it starts from.
  function Derived(h: Hashing, key: Key, have: seq<Element>, capacity: nat): seq<Element> {
    if capacity <= |have| then have
    else have + Hashed(h, key.cycle, Seeds(h, key.chain, |have|, capacity - |have|))
  }

  function Run(h: Hashing, s: State, actions: seq<Action>): State {
    if |actions| == 0 then s
    else Step(h, Run(h, s, actions[..|actions| - 1]), actions[|actions| - 1])
  }

  ghost predicate ThreadSound(h: Hashing, t: Thread) {
    match t.phase
    case Reading => true
    case Deriving(have) => have == Prefix(h, t.key, |have|) && |have| < t.capacity
    case Storing(have, extended) =>
      have == Prefix(h, t.key, |have|) && |have| < t.capacity && extended == Prefix(h, t.key, t.capacity)
    case Returned(points) => points == Prefix(h, t.key, |points|) && |points| >= t.capacity
  }

  ghost predicate AllSound(h: Hashing, s: State) {
    Sound(h, s.entries) && forall i :: 0 <= i < |s.threads| ==> ThreadSound(h, s.threads[i])
  }

  // Any interleaving, clearing included, keeps every vector in sight a prefix of its chain.
  lemma StepKeepsSound(h: Hashing, s: State, action: Action)
    requires AllSound(h, s)
    ensures AllSound(h, Step(h, s, action))
  {
    if action.Advance? && action.thread < |s.threads| {
      var t := s.threads[action.thread];
      CachedIsPrefix(h, s.entries, t.key);
      if t.phase.Deriving? {
        DerivedIsPrefix(h, t.key, t.phase.have, t.capacity);
      }
    }
  }

  lemma CachedIsPrefix(h: Hashing, entries: Entries, key: Key)
    requires Sound(h, entries)
    ensures Cached(entries, key) == Prefix(h, key, |Cached(entries, key)|)
  {
  }

  lemma DerivedIsPrefix(h: Hashing, key: Key, have: seq<Element>, capacity: nat)
    requires have == Prefix(h, key, |have|) && |have| <= capacity
    ensures Derived(h, key, have, capacity) == Prefix(h, key, capacity)
  {
  }

  lemma {:induction false} RunKeepsSound(h: Hashing, s: State, actions: seq<Action>)
    requires AllSound(h, s)
    ensures AllSound(h, Run(h, s, actions))
  {
    if |actions| > 0 {
      RunKeepsSound(h, s, actions[..|actions| - 1]);
      StepKeepsSound(h, Run(h, s, actions[..|actions| - 1]), actions[|actions| - 1]);
    }
  }

  // A thread never sees the cache fall back behind what it has read, and behind each
  // pass through its loop there is at least one more cached generator.
  ghost predicate Ahead(entries: Entries, t: Thread) {
    var cached := |Cached(entries, t.key)|;
    match t.phase
    case Reading => t.passes <= cached && t.passes <= t.capacity
    case Deriving(have) => t.passes <= |have| + 1 && |have| <= cached && |have| < t.capacity
    case Storing(have, extended) =>
      t.passes <= |have| + 1 && |have| <= cached && |have| < t.capacity == |extended|
    case Returned(_) => t.passes <= t.capacity + 1
  }

  ghost predicate AllAhead(s: State) {
    forall i :: 0 <= i < |s.threads| ==> Ahead(s.entries, s.threads[i])
  }

  lemma StoreGrows(entries: Entries, key: Key, have: seq<Element>, extended: seq<Element>)
    requires |have| <= |Cached(entries, key)| && |have| < |extended|
    ensures Grows(entries, Store(entries, key, have, extended))
    ensures |Cached(Store(entries, key, have, extended), key)| > |have|
  {
  }

  lemma GrowthKeepsAhead(before: Entries, after: Entries, t: Thread)
    requires Ahead(before, t) && Grows(before, after)
    ensures Ahead(after, t)
  {
    assert |Cached(before, t.key)| <= |Cached(after, t.key)|;
  }

  // Without clearing, no thread's step loses anything of the cache.
  lemma StepGrows(h: Hashing, s: State, action: Action)
    requires AllSound(h, s) && AllAhead(s) && action.Advance?
    ensures Grows(s.entries, Step(h, s, action).entries) && AllAhead(Step(h, s, action))
  {
    var s' := Step(h, s, action);
    if action.thread < |s.threads| {
      var t := s.threads[action.thread];
      if t.phase.Storing? {
        StoreGrows(s.entries, t.key, t.phase.have, t.phase.extended);
      }
      if t.phase.Deriving? {
        DerivedIsPrefix(h, t.key, t.phase.have, t.capacity);
      }
      assert Ahead(s.entries, t);
      assert Ahead(s'.entries, s'.threads[action.thread]);
    }
    forall i | 0 <= i < |s'.threads|
      ensures Ahead(s'.entries, s'.threads[i])
    {
      assert Ahead(s.entries, s.threads[i]);
      if action.thread != i {
        GrowthKeepsAhead(s.entries, s'.entries, s.threads[i]);
      }
    }
  }

  ghost predicate NoClear(actions: seq<Action>) {
    forall i :: 0 <= i < |actions| ==> actions[i].Advance?
  }

  lemma {:induction false} RunGrows(h: Hashing, s: State, actions: seq<Action>)
    requires AllSound(h, s) && AllAhead(s) && NoClear(actions)
    ensures AllAhead(Run(h, s, actions)) && Grows(s.entries, Run(h, s, actions).entries)
  {
    if |actions| > 0 {
      var before := Run(h, s, actions[..|actions| - 1]);
      RunGrows(h, s, actions[..|actions| - 1]);
      RunKeepsSound(h, s, actions[..|actions| - 1]);
      StepGrows(h, before, actions[|actions| - 1]);
      GrowsTransitively(s.entries, before.entries, Run(h, s, actions).entries);
    }
  }

  lemma GrowsTransitively(a: Entries, b: Entries, c: Entries)
    requires Grows(a, b) && Grows(b, c)
    ensures Grows(a, c)
  {
    forall key
      ensures |Cached(a, key)| <= |Cached(c, key)|
    {
      assert |Cached(a, key)| <= |Cached(b, key)| && |Cached(b, key)| <= |Cached(c, key)|;
    }
  }

  function Start(requests: seq<(Key, nat)>): State {
    State(map[], seq(|requests|, i requires 0 <= i < |requests| => Thread(requests[i].0, requests[i].1, Reading, 0)))
  }

  // Every run from an empty cache: cached and returned vectors are prefixes, the returned
  // ones long enough; without clearing, a thread makes at most one pass more than its capacity.
  lemma EveryRun(h: Hashing, requests: seq<(Key, nat)>, actions: seq<Action>)
    ensures
      var end := Run(h, Start(requests), actions);
      && AllSound(h, end)
      && (NoClear(actions) ==> forall i :: 0 <= i < |end.threads| ==> end.threads[i].passes <= end.threads[i].capacity + 1)
  {
    RunKeepsSound(h, Start(requests), actions);
    if NoClear(actions) {
      RunGrows(h, Start(requests), actions);
      var end := Run(h, Start(requests), actions);
      forall i | 0 <= i < |end.threads|
        ensures end.threads[i].passes <= end.threads[i].capacity + 1
      {
        assert Ahead(end.entries, end.threads[i]);
      }
    }
  }

  // One pass through the loop, cut short by a clear.
  const StarvedPass: seq<Action> := [Advance(0), Advance(0), Advance(0), Clear]

  function StarvedPasses(n: nat): seq<Action> {
    if n == 0 then [] else StarvedPasses(n - 1) + StarvedPass
  }

  // With clearing there is no such bound: a thread can be kept in its loop forever.
  lemma {:induction false} ClearingStarves(h: Hashing, key: Key, capacity: nat, n: nat)
    requires capacity > 0
    ensures Run(h, Start([(key, capacity)]), StarvedPasses(n)) == State(map[], [Thread(key, capacity, Reading, n)])
  {
    if n > 0 {
      ClearingStarves(h, key, capacity, n - 1);
      var before := StarvedPasses(n - 1);
      var s := State(map[], [Thread(key, capacity, Reading, n - 1)]);
      RunAppend(h, Start([(key, capacity)]), before, StarvedPass);
      assert StarvedPass[..3][..2][..1][..0] == [];
      assert StarvedPass[..3][..2][..1] == [Advance(0)] && StarvedPass[..3][..2] == [Advance(0), Advance(0)];
      var read := s.threads[0].(phase := Deriving([]), passes := n);
      assert Run(h, s, StarvedPass[..3][..2][..1]) == State(map[], [read]);
      assert Run(h, s, StarvedPass[..3][..2]) == State(map[], [read.(phase := Storing([], Derived(h, key, [], capacity)))]);
      assert Run(h, s, StarvedPass[..3]).threads == [read.(phase := Reading)];
    }
  }

  lemma {:induction false} RunAppend(h: Hashing, s: State, a: seq<Action>, b: seq<Action>)
    ensures Run(h, s, a + b) == Run(h, Run(h, s, a), b)
  {
    if |b| == 0 {
      assert a + b == a;
    } else {
      RunAppend(h, s, a, b[..|b| - 1]);
      assert (a + b)[..|a + b| - 1] == a + b[..|b| - 1];
    }
  }

  // ----- one thread's loop, with the others in between -----

  // What the other threads do to the cache before this thread's i-th acquisition of the lock.
  type Others = (nat, Entries) -> Entries

  ghost predicate OnlyGrow(h: Hashing, others: Others) {
    forall i, entries :: Sound(h, entries) ==> Sound(h, others(i, entries)) && Grows(entries, others(i, entries))
  }

  class Cache {
    const h: Hashing
    const others: Others
    var entries: Entries
    var locks: nat

    ghost predicate Valid()
      reads this
    {
      Sound(h, entries) && OnlyGrow(h, others)
    }

    constructor (h: Hashing, others: Others)
      requires OnlyGrow(h, others)
      ensures Valid() && this.h == h && entries == map[]
    {
      this.h := h;
      this.others := others;
      entries := map[];
      locks := 0;
    }

    method Lock()
      requires Valid()
      modifies this
      ensures Valid() && Grows(old(entries), entries)
    {
      entries := others(locks, entries);
      locks := locks + 1;
    }

    // The retry loop: each pass sees strictly more than the one before.
    method Derive(key: Key, capacity: nat, threads: nat) returns (points: seq<Element>)
      requires Valid()
      modifies this
      ensures Valid() && Grows(old(entries), entries)
      ensures points == Prefix(h, key, |points|) && |points| >= capacity
    {
      ghost var start := entries;
      Lock();
      var have := Cached(entries, key);
      while |have| < capacity
        invariant Valid() && Grows(start, entries)
        invariant have == Prefix(h, key, |have|) && |have| <= |Cached(entries, key)|
        decreases capacity - |have|
      {
        var extended := Extend(h, key, have, capacity, threads);
        ghost var read := entries;
        Lock();
        assert |Cached(read, key)| <= |Cached(entries, key)|;
        StoreGrows(entries, key, have, extended);
        ghost var locked := entries;
        entries := Store(entries, key, have, extended);
        GrowsTransitively(start, read, locked);
        GrowsTransitively(start, locked, entries);
        ghost var stored := entries;
        Lock();
        GrowsTransitively(start, stored, entries);
        assert |Cached(stored, key)| <= |Cached(entries, key)|;
        have := Cached(entries, key);
      }
      return have;
    }
  }

  // ----- generator sets -----

  // The low 32 bits of a number, least significant byte first.
  function Le32(x: nat): seq<Byte> {
    [x % 256, x / 256 % 256, x / 65536 % 256, x / 16777216 % 256]
  }

  function GLabel(party: nat): Label {
    [71] + Le32(party)
  }

  function HLabel(party: nat): Label {
    [72] + Le32(party)
  }

  // The chains of different parties, and of G and H, never share a label.
  lemma LabelsDiffer(i: nat, j: nat)
    requires i < 0x1_0000_0000 && j < 0x1_0000_0000
    ensures GLabel(i) != HLabel(j)
    ensures GLabel(i) == GLabel(j) || HLabel(i) == HLabel(j) ==> i == j
  {
    assert GLabel(i)[0] != HLabel(j)[0];
    if GLabel(i) == GLabel(j) || HLabel(i) == HLabel(j) {
      assert GLabel(i)[1..] == HLabel(i)[1..] == Le32(i);
      assert GLabel(j)[1..] == HLabel(j)[1..] == Le32(j);
      Le32Spells(i);
      Le32Spells(j);
    }
  }

  function Spelled(bytes: seq<int>): int
    requires |bytes| == 4
  {
    bytes[0] + 256 * bytes[1] + 65536 * bytes[2] + 16777216 * bytes[3]
  }

  lemma Le32Spells(x: nat)
    requires x < 0x1_0000_0000
    ensures Spelled(Le32(x)) == x
  {
    assert x / 65536 == x / 256 / 256 && x / 16777216 == x / 65536 / 256;
  }

  class BulletproofGens {
    const h: Hashing
    const cycle: nat
    const partyCapacity: nat
    var gensCapacity: nat
    var G: seq<seq<Element>>
    var H: seq<seq<Element>>

    // Each party holds prefixes of its two chains, at least as long as the capacity; a
    // cached vector may be longer.
    ghost predicate Valid()
      reads this
    {
      && |G| == |H| == partyCapacity
      && (forall j :: 0 <= j < partyCapacity ==> Holds(G[j], GLabel(j), gensCapacity))
      && (forall j :: 0 <= j < partyCapacity ==> Holds(H[j], HLabel(j), gensCapacity))
    }

    ghost predicate Holds(points: seq<Element>, chain: Label, n: nat) {
      |points| >= n && points == Prefix(h, Key(cycle, chain), |points|)
    }

    constructor (cache: Cache, cycle: nat, gensCapacity: nat, partyCapacity: nat, threads: nat)
      requires cache.Valid()
      modifies cache
      ensures Valid() && h == cache.h && this.cycle == cycle && this.partyCapacity == partyCapacity
      ensures this.gensCapacity == gensCapacity
      ensures cache.Valid() && Grows(old(cache.entries), cache.entries)
    {
      this.h := cache.h;
      this.cycle := cycle;
      this.partyCapacity := partyCapacity;
      this.gensCapacity := 0;
      this.G := seq(partyCapacity, j => []);
      this.H := seq(partyCapacity, j => []);
      new;
      IncreaseCapacity(cache, gensCapacity, threads);
    }

    method IncreaseCapacity(cache: Cache, newCapacity: nat, threads: nat)
      requires Valid() && cache.Valid() && cache.h == h
      modifies this, cache
      ensures Valid() && gensCapacity == if old(gensCapacity) >= newCapacity then old(gensCapacity) else newCapacity
      ensures cache.Valid() && Grows(old(cache.entries), cache.entries)
      ensures newCapacity <= old(gensCapacity) ==> G == old(G) && H == old(H) && cache.entries == old(cache.entries)
    {
      if gensCapacity >= newCapacity {
        return;
      }
      ghost var start := cache.entries;
      for i := 0 to partyCapacity
        invariant Valid() && gensCapacity == old(gensCapacity)
        invariant cache.Valid() && Grows(start, cache.entries)
        invariant forall j :: 0 <= j < i ==> Holds(G[j], GLabel(j), newCapacity) && Holds(H[j], HLabel(j), newCapacity)
      {
        ghost var before := cache.entries;
        var g := cache.Derive(Key(cycle, GLabel(i)), newCapacity, threads);
        GrowsTransitively(start, before, cache.entries);
        ghost var between := cache.entries;
        var hs := cache.Derive(Key(cycle, HLabel(i)), newCapacity, threads);
        GrowsTransitively(start, between, cache.entries);
        G := G[i := g];
        H := H[i := hs];
      }
      gensCapacity := newCapacity;
    }

    // A party's first n generators. Whatever the set's capacity, they are the same as
    // long as it reaches n.
    function ShareG(party: nat, n: nat): (r: seq<Element>)
      requires Valid() && party < partyCapacity
      reads this
      ensures n <= gensCapacity ==> r == Prefix(h, Key(cycle, GLabel(party)), n)
    {
      if n <= |G[party]| then G[party][..n] else G[party]
    }

    function ShareH(party: nat, n: nat): (r: seq<Element>)
      requires Valid() && party < partyCapacity
      reads this
      ensures n <= gensCapacity ==> r == Prefix(h, Key(cycle, HLabel(party)), n)
    {
      if n <= |H[party]| then H[party][..n] else H[party]
    }
  }

  // Two sets of any capacities and party counts agree on what both have.
  lemma SharesAgree(a: BulletproofGens, b: BulletproofGens, party: nat, n: nat)
    requires a.Valid() && b.Valid() && a.h == b.h && a.cycle == b.cycle
    requires party < a.partyCapacity && party < b.partyCapacity && n <= a.gensCapacity && n <= b.gensCapacity
    ensures a.ShareG(party, n) == b.ShareG(party, n) && a.ShareH(party, n) == b.ShareH(party, n)
    ensures |a.ShareG(party, n)| == n
  {
  }

  // ----- different labels give independent chains -----

  // A seed tells its chain and position apart from all others.
  lemma SeedBinds(chain: Label, chain': Label, i: nat, j: nat)
    requires forall h :: Seed(h, chain, i) == Seed(h, chain', j)
    ensures chain == chain' && i == j
  {
    var h := Hashing((absorbed, k) => if absorbed == DOMAIN + chain && k == SEED_BYTES * i then 1 else 0, (c, u) => Identity);
    assert Seed(h, chain, i)[0] == 1;
    assert Seed(h, chain', j)[0] == 1;
    assert (DOMAIN + chain)[|DOMAIN|..] == chain && (DOMAIN + chain')[|DOMAIN|..] == chain';
  }

  // So does a prefix of a chain, which also tells the curve cycle.
  lemma PrefixBinds(key: Key, key': Key, n: nat)
    requires n > 0 && forall h :: Prefix(h, key, n) == Prefix(h, key', n)
    ensures key == key'
  {
    var h := Hashing((absorbed, k) => if absorbed == DOMAIN + key.chain && k == 0 then 1 else 0,
                     (c, u) => if c == key.cycle && |u| > 0 && u[0] == 1 then Generator else Identity);
    assert Seed(h, key.chain, 0)[0] == 1;
    assert Prefix(h, key, n)[0] == Generator;
    assert Prefix(h, key', n)[0] == Generator;
    assert Seed(h, key'.chain, 0)[0] == 1;
    assert (DOMAIN + key.chain)[|DOMAIN|..] == key.chain && (DOMAIN + key'.chain)[|DOMAIN|..] == key'.chain;
  }

  // A hash that spells the absorbed label and the position of each seed, and a map to the
  // group that reads them off again.
  function Spelling(): Hashing {
    Hashing(SpelledByte, (c, u) => if |u| == SEED_BYTES then Red(Place(u)) else Identity)
  }

  function SpelledByte(absorbed: seq<Byte>, k: nat): Byte {
    SpelledAt(absorbed, k % SEED_BYTES, k / SEED_BYTES)
  }

  function SpelledAt(absorbed: seq<Byte>, p: nat, i: nat): Byte {
    if p < 5 then if |DOMAIN| + p < |absorbed| then absorbed[|DOMAIN| + p] else 0
    else if p < 9 then Le32(i)[p - 5]
    else 0
  }

  function Place(u: seq<Byte>): int
    requires |u| == SEED_BYTES
  {
    u[0] - 71 + 2 * Spelled(u[1..5]) + 0x2_0000_0000 * Spelled(u[5..9])
  }

  function SideLabel(h: bool, party: nat): Label {
    if h then HLabel(party) else GLabel(party)
  }

  lemma SpelledSeedByte(chain: Label, i: nat, k: nat)
    requires |chain| == 5 && k < SEED_BYTES
    ensures Seed(Spelling(), chain, i)[k] == if k < 5 then chain[k] else if k < 9 then Le32(i)[k - 5] else 0
  {
    assert (SEED_BYTES * i + k) % SEED_BYTES == k && (SEED_BYTES * i + k) / SEED_BYTES == i;
    assert Seed(Spelling(), chain, i)[k] == SpelledByte(DOMAIN + chain, SEED_BYTES * i + k);
    if k < 5 {
      assert (DOMAIN + chain)[|DOMAIN| + k] == chain[k];
    }
  }

  lemma SpelledSeedParts(chain: Label, i: nat)
    requires |chain| == 5
    ensures var u := Seed(Spelling(), chain, i); u[0] == chain[0] && u[1..5] == chain[1..] && u[5..9] == Le32(i)
  {
    var u := Seed(Spelling(), chain, i);
    forall k | 0 <= k < SEED_BYTES
      ensures u[k] == if k < 5 then chain[k] else if k < 9 then Le32(i)[k - 5] else 0
    {
      SpelledSeedByte(chain, i, k);
    }
  }

  lemma SpelledSeed(h: bool, party: nat, i: nat)
    requires party < 0x1_0000_0000 && i < 0x1_0000_0000
    ensures Place(Seed(Spelling(), SideLabel(h, party), i)) == Position(h, party, i)
  {
    var chain := SideLabel(h, party);
    SpelledSeedParts(chain, i);
    assert chain[1..] == Le32(party);
    Le32Spells(party);
    Le32Spells(i);
  }

  function Position(h: bool, party: nat, i: nat): int {
    (if h then 1 else 0) + 2 * party + 0x2_0000_0000 * i
  }

  lemma PositionsDiffer(h: bool, h': bool, party: nat, party': nat, i: nat, j: nat)
    requires party < 0x1_0000_0000 && party' < 0x1_0000_0000 && i < 0x1_0000_0000 && j < 0x1_0000_0000
    ensures Position(h, party, i) == Position(h', party', j) ==> h == h' && party == party' && i == j
    ensures 0 <= Position(h, party, i) < 0x2_0000_0000_0000_0000
  {
  }

  lemma SpelledGenerator(cycle: nat, h: bool, party: nat, i: nat, n: nat)
    requires q >= 0x2_0000_0000_0000_0000 && party < 0x1_0000_0000 && i < 0x1_0000_0000 && i < n
    ensures Prefix(Spelling(), Key(cycle, SideLabel(h, party)), n)[i] == Position(h, party, i)
  {
    SpelledSeed(h, party, i);
    PositionsDiffer(h, h, party, party, i, i);
  }

  // Under one hash all generators of all parties, for G and for H, at all positions below
  // 2^32, are different points, provided the group has as many.
  lemma GeneratorsSeparate(cycle: nat, h: bool, h': bool, party: nat, party': nat, i: nat, j: nat)
    requires q >= 0x2_0000_0000_0000_0000
    requires party < 0x1_0000_0000 && party' < 0x1_0000_0000 && i < 0x1_0000_0000 && j < 0x1_0000_0000
    requires Prefix(Spelling(), Key(cycle, SideLabel(h, party)), i + 1)[i] == Prefix(Spelling(), Key(cycle, SideLabel(h', party')), j + 1)[j]
    ensures h == h' && party == party' && i == j
  {
    SpelledGenerator(cycle, h, party, i, i + 1);
    SpelledGenerator(cycle, h', party', j, j + 1);
    PositionsDiffer(h, h', party, party', i, j);
  }

  // The generator vectors of one set share no point, whatever its capacity.
  lemma SharesSeparate(s: BulletproofGens, party: nat, party': nat, n: nat, i: nat, j: nat)
    requires q >= 0x2_0000_0000_0000_0000 && s.Valid() && s.h == Spelling()
    requires party < s.partyCapacity && party' < s.partyCapacity && party < 0x1_0000_0000 && party' < 0x1_0000_0000
    requires i < n && j < n && n <= s.gensCapacity && n <= 0x1_0000_0000
    ensures s.ShareG(party, n)[i] != s.ShareH(party', n)[j]
    ensures s.ShareG(party, n)[i] == s.ShareG(party', n)[j] ==> party == party' && i == j
    ensures s.ShareH(party, n)[i] == s.ShareH(party', n)[j] ==> party == party' && i == j
  {
    SpelledGenerator(s.cycle, false, party, i, n);
    SpelledGenerator(s.cycle, false, party', j, n);
    SpelledGenerator(s.cycle, true, party, i, n);
    SpelledGenerator(s.cycle, true, party', j, n);
    PositionsDiffer(false, true, party, party', i, j);
    PositionsDiffer(false, false, party, party', i, j);
    PositionsDiffer(true, true, party, party', i, j);
  }
}
