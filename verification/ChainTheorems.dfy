/** What the fork-choice invariant gives over whole runs: ancestry, cumulative work, order independence. */
module ChainTheorems {
  import opened Base
  import opened ChainStore
  import opened ForkChoice
  import opened Header
  import Target

  datatype Event = Event(block: Block, now: int)

  /** The state after inserting blocks one after another. */
  function Run(rules: Rules, events: seq<Event>): Chain
    requires rules.spec.Valid()
  {
    if events == [] then EMPTY_CHAIN
    else
      var last := events[|events| - 1];
      Insert(rules, Run(rules, events[..|events| - 1]), last.block, last.now).0
  }

  ghost predicate NonZeroHashes(rules: Rules, events: seq<Event>) {
    forall i :: 0 <= i < |events| ==> rules.hashOf(events[i].block.header) != ZERO_HASH
  }

  /** Every run from the empty store keeps the invariant. */
  lemma {:induction false} RunInvariant(rules: Rules, events: seq<Event>)
    requires rules.spec.Valid() && NonZeroHashes(rules, events)
    ensures ChainInvariant(rules.hashOf, Run(rules, events))
  {
    if events == [] {
      EmptyInvariant(rules.hashOf);
    } else {
      var last := events[|events| - 1];
      RunInvariant(rules, events[..|events| - 1]);
      InsertKeepsInvariant(rules, Run(rules, events[..|events| - 1]), last.block, last.now);
    }
  }

  // ----- ancestry -----

  /** The hashes from a stored block back to height zero. */
  ghost function PathToGenesis(hashOf: BlockHeader -> Hash32, c: Chain, hash: Hash32): (path: seq<Hash32>)
    requires AllLinked(hashOf, c) && hash in c.blocks
    ensures |path| == c.blocks[hash].header.height + 1 && path[0] == hash
    decreases c.blocks[hash].header.height
  {
    assert Linked(hashOf, c, hash);
    var h := c.blocks[hash].header;
    if h.height == 0 then [hash] else [hash] + PathToGenesis(hashOf, c, h.parentHash)
  }

  ghost function WorkAlong(c: Chain, path: seq<Hash32>): nat
    requires forall hash :: hash in path ==> hash in c.blocks
  {
    if path == [] then 0
    else
      assert path[0] in path && forall hash :: hash in path[1..] ==> hash in path;
      Target.CalcBlockWork(c.blocks[path[0]].header.target) + WorkAlong(c, path[1..])
  }

  /** One step along the path: to the parent, one height lower, strictly earlier. */
  ghost predicate StepsToParent(c: Chain, path: seq<Hash32>) {
    && (forall i :: 0 <= i < |path| ==> path[i] in c.blocks && c.blocks[path[i]].header.height == |path| - 1 - i)
    && forall i {:trigger path[i]} :: 0 < i < |path| ==> StepsTo(c, path[i - 1], path[i])
  }

  ghost predicate StepsTo(c: Chain, child: Hash32, parent: Hash32)
    requires child in c.blocks && parent in c.blocks
  {
    parent == c.blocks[child].header.parentHash && c.blocks[parent].header.timestamp < c.blocks[child].header.timestamp
  }

  /**
   Every stored block reaches a block of height zero in exactly as many parent steps as its height,
   through strictly earlier blocks, and its total work is the sum of the work along the way.
   */
  lemma {:induction false} PathProperties(hashOf: BlockHeader -> Hash32, c: Chain, hash: Hash32)
    requires AllLinked(hashOf, c) && hash in c.blocks
    ensures var path := PathToGenesis(hashOf, c, hash);
            StepsToParent(c, path) && (forall x :: x in path ==> x in c.blocks) && c.work[hash] == WorkAlong(c, path)
    decreases c.blocks[hash].header.height
  {
    assert Linked(hashOf, c, hash);
    var h := c.blocks[hash].header;
    var path := PathToGenesis(hashOf, c, hash);
    if h.height == 0 {
      assert path[1..] == [];
    } else {
      PathProperties(hashOf, c, h.parentHash);
      var rest := PathToGenesis(hashOf, c, h.parentHash);
      ExtendPath(c, hash, rest);
      PathMembers(c, path);
      assert path[1..] == rest;
    }
  }

  lemma PathMembers(c: Chain, path: seq<Hash32>)
    requires StepsToParent(c, path)
    ensures forall x :: x in path ==> x in c.blocks
  {
  }

  lemma ExtendPath(c: Chain, hash: Hash32, rest: seq<Hash32>)
    requires hash in c.blocks && rest != [] && StepsToParent(c, rest)
    requires rest[0] == c.blocks[hash].header.parentHash
    requires c.blocks[hash].header.height == |rest|
    requires c.blocks[rest[0]].header.timestamp < c.blocks[hash].header.timestamp
    ensures StepsToParent(c, [hash] + rest)
  {
    var path := [hash] + rest;
    forall i | 0 < i < |path|
      ensures StepsTo(c, path[i - 1], path[i])
    {
      assert path[i] == rest[i - 1];
      if i > 1 {
        assert path[i - 1] == rest[i - 2];
      }
    }
  }

  // ----- order independence -----

  /** Each insertion of the run was accepted. */
  ghost predicate AllAccepted(rules: Rules, events: seq<Event>)
    requires rules.spec.Valid()
  {
    events == [] ||
    (var init, last := events[..|events| - 1], events[|events| - 1];
     AllAccepted(rules, init) && BlockError(rules, Run(rules, init), last.block, last.now).None?)
  }

  ghost predicate Carries(events: seq<Event>, h: BlockHeader) {
    events != [] && (Carries(events[..|events| - 1], h) || events[|events| - 1].block.header == h)
  }

  /** No two different headers of these runs share a hash. */
  ghost predicate CollisionFree(rules: Rules, a: seq<Event>, b: seq<Event>) {
    forall x, y :: (Carries(a, x) || Carries(b, x)) && (Carries(a, y) || Carries(b, y)) ==>
      (rules.hashOf(x) == rules.hashOf(y) ==> x == y)
  }

  ghost predicate SameHeaders(a: seq<Event>, b: seq<Event>) {
    forall h :: Carries(a, h) <==> Carries(b, h)
  }

  ghost predicate Holds(rules: Rules, c: Chain, h: BlockHeader) {
    rules.hashOf(h) in c.blocks && c.blocks[rules.hashOf(h)].header == h
  }

  lemma AcceptedInsertHolds(rules: Rules, c: Chain, b: Block, now: int, h: BlockHeader)
    requires rules.spec.Valid() && ChainInvariant(rules.hashOf, c) && rules.hashOf(b.header) != ZERO_HASH
    requires BlockError(rules, c, b, now).None?
    requires rules.hashOf(b.header) in c.blocks ==> Holds(rules, c, b.header)
    ensures var after := Insert(rules, c, b, now).0;
            || after.blocks == c.blocks
            || (rules.hashOf(b.header) !in c.blocks && after.blocks == c.blocks[rules.hashOf(b.header) := b])
    ensures Holds(rules, Insert(rules, c, b, now).0, h) <==> Holds(rules, c, h) || h == b.header
  {
    ValidMeansLinked(rules, c, b, now);
    InsertValidKeepsInvariant(rules.hashOf, c, b);
    InsertValidBlocks(rules.hashOf, c, b);
  }

  lemma InsertValidBlocks(hashOf: BlockHeader -> Hash32, c: Chain, b: Block)
    requires InsertValid(hashOf, c, b).1.Inserted?
    ensures InsertValid(hashOf, c, b).0.blocks ==
      if hashOf(b.header) in c.blocks then c.blocks else c.blocks[hashOf(b.header) := b]
  {
  }

  /** A run of accepted blocks stores exactly the headers it was given, each under its hash. */
  lemma {:induction false} StoredHeaders(rules: Rules, events: seq<Event>, h: BlockHeader)
    requires rules.spec.Valid() && NonZeroHashes(rules, events) && AllAccepted(rules, events)
    requires CollisionFree(rules, events, events)
    ensures Holds(rules, Run(rules, events), h) <==> Carries(events, h)
  {
    if events != [] {
      var init, last := events[..|events| - 1], events[|events| - 1];
      var c := Run(rules, init);
      RunInvariant(rules, init);
      StoredHeaders(rules, init, h);
      if rules.hashOf(last.block.header) in c.blocks {
        var there := c.blocks[rules.hashOf(last.block.header)].header;
        assert Linked(rules.hashOf, c, rules.hashOf(last.block.header));
        StoredHeaders(rules, init, there);
        assert Carries(events, there) && Carries(events, last.block.header);
      }
      AcceptedInsertHolds(rules, c, last.block, last.now, h);
    }
  }

  function Headers(c: Chain): map<Hash32, BlockHeader> {
    map hash | hash in c.blocks :: c.blocks[hash].header
  }

  /** The total work of a stored block is decided by the stored headers. */
  lemma {:induction false} SameWork(hashOf: BlockHeader -> Hash32, a: Chain, b: Chain, hash: Hash32)
    requires AllLinked(hashOf, a) && AllLinked(hashOf, b) && Headers(a) == Headers(b) && hash in a.blocks
    ensures hash in b.blocks && a.work[hash] == b.work[hash]
    decreases a.blocks[hash].header.height
  {
    assert hash in Headers(a) && Headers(a)[hash] == Headers(b)[hash];
    assert Linked(hashOf, a, hash) && Linked(hashOf, b, hash);
    if a.blocks[hash].header.height > 0 {
      SameWork(hashOf, a, b, a.blocks[hash].header.parentHash);
    }
  }

  lemma SameWorkMap(hashOf: BlockHeader -> Hash32, a: Chain, b: Chain)
    requires AllLinked(hashOf, a) && AllLinked(hashOf, b) && Headers(a) == Headers(b)
    ensures a.blocks.Keys == b.blocks.Keys && a.work == b.work
  {
    assert a.blocks.Keys == Headers(a).Keys == b.blocks.Keys;
    forall hash | hash in a.work
      ensures a.work[hash] == b.work[hash]
    {
      SameWork(hashOf, a, b, hash);
    }
  }

  lemma SameHeadersSameTip(hashOf: BlockHeader -> Hash32, a: Chain, b: Chain)
    requires ChainInvariant(hashOf, a) && ChainInvariant(hashOf, b) && Headers(a) == Headers(b)
    ensures a.work == b.work && a.tip == b.tip
  {
    SameWorkMap(hashOf, a, b);
    if a.tip != ZERO_HASH && b.tip != ZERO_HASH {
      BeatsIsTotalOrder(a.tip, a.work[a.tip], b.tip, b.work[b.tip], a.tip, a.work[a.tip]);
    }
  }

  /**
   Two runs of accepted blocks that carry the same headers, in whatever order, end with the same
   stored headers, the same total work and the same tip.
   */
  lemma OrderIndependence(rules: Rules, a: seq<Event>, b: seq<Event>)
    requires rules.spec.Valid()
    requires NonZeroHashes(rules, a) && AllAccepted(rules, a)
    requires NonZeroHashes(rules, b) && AllAccepted(rules, b)
    requires CollisionFree(rules, a, b) && SameHeaders(a, b)
    ensures var x, y := Run(rules, a), Run(rules, b);
            Headers(x) == Headers(y) && x.work == y.work && x.tip == y.tip
  {
    hide Run, AllLinked, TipIsBest, NonZeroHashes, AllAccepted;
    RunInvariant(rules, a);
    RunInvariant(rules, b);
    StoredSubset(rules, a, b);
    StoredSubset(rules, b, a);
    SameHeadersSameTip(rules.hashOf, Run(rules, a), Run(rules, b));
  }

  lemma StoredSubset(rules: Rules, a: seq<Event>, b: seq<Event>)
    requires rules.spec.Valid()
    requires NonZeroHashes(rules, a) && AllAccepted(rules, a)
    requires NonZeroHashes(rules, b) && AllAccepted(rules, b)
    requires CollisionFree(rules, a, b) && SameHeaders(a, b)
    ensures forall hash :: hash in Headers(Run(rules, a)) ==>
      hash in Headers(Run(rules, b)) && Headers(Run(rules, b))[hash] == Headers(Run(rules, a))[hash]
  {
    forall hash | hash in Headers(Run(rules, a))
      ensures hash in Headers(Run(rules, b)) && Headers(Run(rules, b))[hash] == Headers(Run(rules, a))[hash]
    {
      SameStored(rules, a, b, hash);
    }
  }

  lemma SameStored(rules: Rules, a: seq<Event>, b: seq<Event>, hash: Hash32)
    requires rules.spec.Valid()
    requires NonZeroHashes(rules, a) && AllAccepted(rules, a)
    requires NonZeroHashes(rules, b) && AllAccepted(rules, b)
    requires CollisionFree(rules, a, b) && SameHeaders(a, b) && hash in Run(rules, a).blocks
    ensures hash in Run(rules, b).blocks && Run(rules, b).blocks[hash].header == Run(rules, a).blocks[hash].header
  {
    var h := Run(rules, a).blocks[hash].header;
    RunInvariant(rules, a);
    assert Linked(rules.hashOf, Run(rules, a), hash);
    StoredHeaders(rules, a, h);
    StoredHeaders(rules, b, h);
  }

  ghost predicate ValidOnParent(rules: Rules, e: Event, parent: BlockHeader)
    requires rules.spec.Valid()
  {
    rules.hashOf(parent) == e.block.header.parentHash && BlockErrorOn(rules, e.block, Some(parent), e.now).None?
  }

  /** A block that is valid on top of a header inserted earlier, or on nothing when it is a genesis. */
  ghost predicate ValidAfter(rules: Rules, earlier: seq<Event>, e: Event)
    requires rules.spec.Valid()
  {
    if e.block.header.height == 0 then BlockErrorOn(rules, e.block, None, e.now).None?
    else exists p :: Carries(earlier, p) && ValidOnParent(rules, e, p)
  }

  ghost predicate ParentsFirst(rules: Rules, events: seq<Event>)
    requires rules.spec.Valid()
  {
    events == [] ||
    (ParentsFirst(rules, events[..|events| - 1]) && ValidAfter(rules, events[..|events| - 1], events[|events| - 1]))
  }

  /** Valid blocks given parents first are all accepted. */
  lemma {:induction false} ParentsFirstAccepted(rules: Rules, events: seq<Event>)
    requires rules.spec.Valid() && NonZeroHashes(rules, events)
    requires ParentsFirst(rules, events) && CollisionFree(rules, events, events)
    ensures AllAccepted(rules, events)
  {
    if events != [] {
      var init, last := events[..|events| - 1], events[|events| - 1];
      ParentsFirstAccepted(rules, init);
      if last.block.header.height > 0 {
        var p :| Carries(init, p) && ValidOnParent(rules, last, p);
        StoredHeaders(rules, init, p);
      } else {
        GenesisIgnoresParent(rules, last.block, Run(rules, init).HeaderOf(last.block.header.parentHash), last.now);
      }
    }
  }

  lemma GenesisIgnoresParent(rules: Rules, b: Block, parent: Option<BlockHeader>, now: int)
    requires rules.spec.Valid() && b.header.height == 0
    ensures BlockErrorOn(rules, b, parent, now) == BlockErrorOn(rules, b, None, now)
  {
  }

  /** Any two parents-first orders of valid blocks with the same headers build the same chain. */
  lemma ParentsFirstOrderIndependence(rules: Rules, a: seq<Event>, b: seq<Event>)
    requires rules.spec.Valid() && NonZeroHashes(rules, a) && NonZeroHashes(rules, b)
    requires ParentsFirst(rules, a) && ParentsFirst(rules, b) && CollisionFree(rules, a, b) && SameHeaders(a, b)
    ensures var x, y := Run(rules, a), Run(rules, b);
            Headers(x) == Headers(y) && x.work == y.work && x.tip == y.tip
  {
    hide Run, ParentsFirst, NonZeroHashes, AllAccepted, Headers;
    ParentsFirstAccepted(rules, a);
    ParentsFirstAccepted(rules, b);
    OrderIndependence(rules, a, b);
  }

  /** Two different encoded headers with one SHA-256 digest. */
  ghost predicate HeadersCollide(hs: HashSuite, x: BlockHeader, y: BlockHeader) {
    Collision(hs.sha256, Encode(x), Encode(y))
  }

  /**
   With the hash the node uses, nothing has to be assumed about it: any two parents-first orders of the
   same valid blocks build the same chain, or two of their headers are a SHA-256 collision.
   */
  lemma OrderIndependenceOrCollision(rules: Rules, a: seq<Event>, b: seq<Event>)
    requires rules.spec.Valid() && NonZeroHashes(rules, a) && NonZeroHashes(rules, b)
    requires forall h :: rules.hashOf(h) == HeaderHash(rules.hs, h)
    requires ParentsFirst(rules, a) && ParentsFirst(rules, b) && SameHeaders(a, b)
    ensures var x, y := Run(rules, a), Run(rules, b);
            || (Headers(x) == Headers(y) && x.work == y.work && x.tip == y.tip)
            || exists h, k :: Carries(a, h) && Carries(a, k) && HeadersCollide(rules.hs, h, k)
  {
    hide Run, ParentsFirst, NonZeroHashes, Headers, Encode;
    if CollisionFree(rules, a, b) {
      ParentsFirstOrderIndependence(rules, a, b);
    } else {
      var h, k :| (Carries(a, h) || Carries(b, h)) && (Carries(a, k) || Carries(b, k))
        && rules.hashOf(h) == rules.hashOf(k) && h != k;
      if Encode(h) == Encode(k) {
        EncodeInjective(h, k);
      }
      assert HeadersCollide(rules.hs, h, k);
    }
  }
}
