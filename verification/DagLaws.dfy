/**
 What the seed cache and the cells are, said a second time and independently: digests of 64 bytes that
 combine two entries bit by bit, pass after pass and lookup after lookup.
 */
module DagLaws {
  import opened Base
  import opened BitLaws
  import opened ChainSpec
  import opened DagGeneration
  import opened TraceHash
  import TraceLaws

  /** The entry is the SHA3-512 digest of two others, combined bit by bit. */
  ghost predicate IsMixOf(hs: HashSuite, entry: Hash64, a: Hash64, b: Hash64) {
    exists x: Bytes :: Combines(x, a, b) && entry == hs.sha3x512(x)
  }

  ghost predicate Combines(x: Bytes, a: Bytes, b: Bytes) {
    |x| == |a| == |b| && forall j :: 0 <= j < |x| ==> BitSum(x[j], a[j], b[j])
  }

  lemma CombinesIffXor(x: Bytes, a: Bytes, b: Bytes)
    requires |a| == |b|
    ensures Combines(x, a, b) <==> x == XorBytes(a, b)
  {
    hide BitSum;
    forall j | 0 <= j < |a| && |x| == |a|
      ensures BitSum(x[j], a[j], b[j]) <==> x[j] == XorBytes(a, b)[j]
    {
      BitSumIffXor(x[j], a[j], b[j]);
    }
  }

  lemma MixedIs(hs: HashSuite, entry: Hash64, a: Hash64, b: Hash64)
    ensures IsMixOf(hs, entry, a, b) <==> entry == Mixed(hs, a, b)
  {
    hide Combines;
    CombinesIffXor(XorBytes(a, b), a, b);
    forall x: Bytes | Combines(x, a, b)
      ensures x == XorBytes(a, b)
    {
      CombinesIffXor(x, a, b);
    }
  }

  /** Mixing loses nothing of the second entry. */
  lemma MixedCommits(hs: HashSuite, a: Hash64, b: Hash64, c: Hash64)
    requires b != c
    ensures Mixed(hs, a, b) != Mixed(hs, a, c) || Collision(hs.sha3x512, XorBytes(a, b), XorBytes(a, c))
  {
    if XorBytes(a, b) == XorBytes(a, c) {
      XorBytesInjective(a, b, c);
    }
  }

  // ----- the seed cache -----

  /** The target an entry names: its first word, read little-endian, modulo the number of entries. */
  function Target(entry: Hash64, entries: nat): (t: nat)
    requires entries > 0
    ensures t < entries
  {
    TraceLaws.WordValue(entry[..4]) % entries
  }

  /** A pass mixes every old entry with its target, which is new already if it comes earlier. */
  ghost predicate IsPass(hs: HashSuite, before: Cache, after: Cache) {
    |before| == |after| &&
    forall i :: 0 <= i < |before| ==> PassesEntry(hs, before, after, i)
  }

  ghost predicate PassesEntry(hs: HashSuite, before: Cache, after: Cache, i: nat)
    requires i < |before| == |after|
  {
    var t := Target(before[i], |before|);
    IsMixOf(hs, after[i], before[i], if t < i then after[t] else before[t])
  }

  lemma SameTarget(entry: Hash64, entries: nat)
    requires entries > 0
    ensures Target(entry, entries) == TargetOf(entry, entries)
  {
    WordIsLittleEndian(entry, 0);
  }

  lemma PassMixes(hs: HashSuite, cache: Cache)
    ensures IsPass(hs, cache, PassTo(hs, cache, |cache|))
  {
    hide Mixed, PassTo, Target, IsMixOf;
    var after := PassTo(hs, cache, |cache|);
    forall i | 0 <= i < |cache|
      ensures PassesEntry(hs, cache, after, i)
    {
      var t := TargetOf(cache[i], |cache|);
      SameTarget(cache[i], |cache|);
      PassEntry(hs, cache, i);
      MixedIs(hs, after[i], cache[i], if t < i then after[t] else cache[t]);
    }
  }

  lemma {:induction false} PassUnique(hs: HashSuite, before: Cache, a: Cache, b: Cache, done: nat)
    requires IsPass(hs, before, a) && IsPass(hs, before, b) && done <= |before|
    ensures a[..done] == b[..done]
  {
    hide Target, IsMixOf;
    if done > 0 {
      PassUnique(hs, before, a, b, done - 1);
      var i := done - 1;
      var t := Target(before[i], |before|);
      assert PassesEntry(hs, before, a, i) && PassesEntry(hs, before, b, i);
      assert t < i ==> a[t] == a[..i][t] == b[..i][t] == b[t];
      var other := if t < i then a[t] else before[t];
      MixedIs(hs, a[i], before[i], other);
      MixedIs(hs, b[i], before[i], other);
    }
  }

  lemma PassIs(hs: HashSuite, before: Cache, after: Cache)
    ensures IsPass(hs, before, after) <==> after == PassTo(hs, before, |before|)
  {
    hide IsPass, PassTo;
    PassMixes(hs, before);
    if IsPass(hs, before, after) {
      PassUnique(hs, before, after, PassTo(hs, before, |before|), |before|);
      SameLength(hs, before, after);
      assert after == after[..|before|];
    }
  }

  lemma SameLength(hs: HashSuite, before: Cache, after: Cache)
    requires IsPass(hs, before, after)
    ensures |after| == |before|
  {
  }

  /** Digests of digests, from the digest of the seed's own digest. */
  ghost predicate IsChained(hs: HashSuite, seed: Bytes, cache: Cache) {
    && (cache != [] ==> cache[0] == hs.sha3x512(hs.sha3x256(seed)))
    && forall i {:trigger cache[i]} :: 0 < i < |cache| ==> cache[i] == hs.sha3x512(cache[i - 1])
  }

  lemma ChainedIs(hs: HashSuite, seed: Bytes, cache: Cache)
    ensures IsChained(hs, seed, cache) <==> cache == ChainedCache(hs, seed, |cache|)
  {
    if IsChained(hs, seed, cache) {
      forall i | 0 <= i < |cache|
        ensures cache[i] == ChainEntry(hs, seed, i)
      {
        ChainedEntry(hs, seed, cache, i);
      }
    }
  }

  lemma {:induction false} ChainedEntry(hs: HashSuite, seed: Bytes, cache: Cache, i: nat)
    requires IsChained(hs, seed, cache) && i < |cache|
    ensures cache[i] == ChainEntry(hs, seed, i)
  {
    if i > 0 {
      ChainedEntry(hs, seed, cache, i - 1);
    }
  }

  /** The seed cache is the chained digests after three passes, and nothing else is. */
  lemma SeedCacheIs(hs: HashSuite, seed: Bytes, cache: Cache)
    ensures cache == SeedCache(hs, seed, |cache|) <==>
              exists a, b, c :: |a| == |cache| && IsChained(hs, seed, a) && IsPass(hs, a, b) && IsPass(hs, b, c)
                && IsPass(hs, c, cache)
  {
    hide IsPass, IsChained, PassTo, ChainedCache;
    var a := ChainedCache(hs, seed, |cache|);
    ThreePasses(hs, a);
    ChainedIs(hs, seed, a);
    var b := PassTo(hs, a, |a|);
    var c := PassTo(hs, b, |b|);
    PassIs(hs, a, b);
    PassIs(hs, b, c);
    PassIs(hs, c, cache);
    forall x, y, z | |x| == |cache| && IsChained(hs, seed, x) && IsPass(hs, x, y) && IsPass(hs, y, z)
      ensures x == a && y == b && z == c
    {
      ChainedIs(hs, seed, x);
      PassIs(hs, x, y);
      PassIs(hs, y, z);
    }
  }

  lemma ThreePasses(hs: HashSuite, a: Cache)
    ensures var b := PassTo(hs, a, |a|);
            var c := PassTo(hs, b, |b|);
            Passes(hs, a, SEED_CACHE_PASSES) == PassTo(hs, c, |c|)
  {
    hide PassTo;
    assert Passes(hs, a, 1) == PassTo(hs, a, |a|);
    assert Passes(hs, a, 2) == PassTo(hs, Passes(hs, a, 1), |a|);
  }

  /** Another target entry makes another new entry, or shows a SHA3-512 collision. */
  lemma TargetMatters(hs: HashSuite, cache: Cache, i: nat, other: Hash64)
    requires i < |cache|
    ensures var t := Target(cache[i], |cache|);
            i < t && other != cache[t] ==>
              var one, two := PassTo(hs, cache, |cache|)[i], PassTo(hs, cache[t := other], |cache|)[i];
              one != two || Collision(hs.sha3x512, XorBytes(cache[i], cache[t]), XorBytes(cache[i], other))
  {
    var t := Target(cache[i], |cache|);
    SameTarget(cache[i], |cache|);
    hide PassTo, Mixed, Target;
    if i < t && other != cache[t] {
      PassEntry(hs, cache, i);
      PassEntry(hs, cache[t := other], i);
      MixedCommits(hs, cache[i], cache[t], other);
    }
  }

  // ----- a cell -----

  /** The entry lookup j reads: picked by the index, the lookup and one byte of the mix. */
  ghost predicate IsSlot(cache: Cache, index: Uint64, j: nat, mix: Hash64, slot: nat)
    requires cache != []
  {
    exists x: Uint32 :: BitSum(x, index % 0x1_0000_0000, j) && slot == Fnv1a32(x, mix[j % 64]) % |cache|
  }

  /** The entry an index starts from, with the eight bytes of the index combined into its first eight. */
  ghost predicate IsStart(cache: Cache, index: Uint64, idx: Bytes, x: Bytes)
    requires cache != []
  {
    var entry: Bytes := cache[index % |cache|];
    |x| == 64 && Combines(x[..8], entry[..8], idx) && x[8..] == entry[8..]
  }

  /** The mixes of a cell: a start, 128 lookups, and 256 bytes drawn from the last mix and the index. */
  ghost predicate IsCell(hs: HashSuite, cache: Cache, index: Uint64, idx: Bytes, mixes: seq<Hash64>, cell: Cell)
    requires cache != []
  {
    && |mixes| == 129
    && (exists x: Bytes :: IsStart(cache, index, idx, x) && mixes[0] == hs.sha3x512(x))
    && (forall j :: 0 <= j < 128 ==> LooksUp(hs, cache, index, j, mixes[j], mixes[j + 1]))
    && cell == hs.keyedXof(mixes[128][..32], TraceLaws.Join(mixes[128], idx))
  }

  ghost predicate LooksUp(hs: HashSuite, cache: Cache, index: Uint64, j: nat, mix: Hash64, next: Hash64)
    requires cache != []
  {
    exists slot :: 0 <= slot < |cache| && IsSlot(cache, index, j, mix, slot) && IsMixOf(hs, next, mix, cache[slot])
  }

  /** The entry lookup j reads, as it is computed. */
  function Slot(cache: Cache, index: Uint64, j: nat, mix: Hash64): (slot: nat)
    requires cache != []
    ensures slot < |cache|
  {
    Fnv1a32(Xor(index % TWO_32, j) % TWO_32, mix[j % 64]) % |cache|
  }

  lemma NextMix(hs: HashSuite, cache: Cache, index: Uint64, j: nat)
    requires cache != []
    ensures var mix := CellMix(hs, cache, index, j);
            CellMix(hs, cache, index, j + 1) == Mixed(hs, mix, cache[Slot(cache, index, j, mix)])
  {
  }

  lemma SlotIs(cache: Cache, index: Uint64, j: Uint32, mix: Hash64, slot: nat)
    requires cache != []
    ensures IsSlot(cache, index, j, mix, slot) <==> slot == Slot(cache, index, j, mix)
  {
    hide BitSum, Fnv1a32;
    XorOfWords(index % TWO_32, j);
    var x: Uint32 := Xor(index % TWO_32, j);
    TraceLaws.SmallRemainder(x, TWO_32);
    forall y: Uint32
      ensures BitSum(y, index % TWO_32, j) <==> y == x
    {
      BitSumIffXor(y, index % TWO_32, j);
    }
  }

  /** Each lookup mixes in the one entry it picks. */
  lemma LookupIs(hs: HashSuite, cache: Cache, index: Uint64, j: Uint32, mix: Hash64, next: Hash64)
    requires cache != []
    ensures LooksUp(hs, cache, index, j, mix, next) <==> next == Mixed(hs, mix, cache[Slot(cache, index, j, mix)])
  {
    hide IsSlot, IsMixOf, Mixed, Slot;
    var slot := Slot(cache, index, j, mix);
    SlotIs(cache, index, j, mix, slot);
    MixedIs(hs, next, mix, cache[slot]);
    forall other | IsSlot(cache, index, j, mix, other)
      ensures other == slot
    {
      SlotIs(cache, index, j, mix, other);
    }
  }

  lemma StartIs(hs: HashSuite, cache: Cache, index: Uint64, idx: Bytes, x: Bytes)
    requires cache != [] && idx == LittleEndian(index, 8)
    ensures var entry: Bytes := cache[index % |cache|];
            IsStart(cache, index, idx, x) <==> x == XorBytes(entry[..8], idx) + entry[8..]
  {
    var entry: Bytes := cache[index % |cache|];
    if |x| == 64 {
      CombinesIffXor(x[..8], entry[..8], idx);
      assert x == x[..8] + x[8..];
    }
    hide LittleEndian, XorBytes;
    var y := XorBytes(entry[..8], idx) + entry[8..];
    assert y[..8] == XorBytes(entry[..8], idx) && y[8..] == entry[8..];
  }

  /** A cell is what these steps give, and nothing else is; the index enters as eight little-endian bytes. */
  lemma CellIs(hs: HashSuite, cache: Cache, index: Uint64, idx: Bytes, cell: Cell)
    requires cache != [] && |idx| == 8 && FromLittleEndian(idx) == index
    ensures cell == CellAt(hs, cache, index) <==> exists mixes :: IsCell(hs, cache, index, idx, mixes, cell)
  {
    TraceLaws.NonceBytesUnique(index, idx);
    var honest: seq<Hash64> := seq(129, j requires 0 <= j < 129 => CellMix(hs, cache, index, j));
    hide CellMix, LittleEndian, FromLittleEndian;
    if cell == CellAt(hs, cache, index) {
      HonestCellIs(hs, cache, index, idx, honest);
    }
    forall mixes: seq<Hash64> | IsCell(hs, cache, index, idx, mixes, cell)
      ensures mixes[128] == CellMix(hs, cache, index, 128)
    {
      CellMixUnique(hs, cache, index, idx, mixes, cell, 128);
    }
  }

  lemma FirstMix(hs: HashSuite, cache: Cache, index: Uint64, idx: Bytes)
    requires cache != [] && idx == LittleEndian(index, 8)
    ensures var entry: Bytes := cache[index % |cache|];
            CellMix(hs, cache, index, 0) == hs.sha3x512(XorBytes(entry[..8], idx) + entry[8..])
  {
  }

  lemma HonestCellIs(hs: HashSuite, cache: Cache, index: Uint64, idx: Bytes, mixes: seq<Hash64>)
    requires cache != [] && idx == LittleEndian(index, 8) && |mixes| == 129
    requires forall j :: 0 <= j < 129 ==> mixes[j] == CellMix(hs, cache, index, j)
    ensures IsCell(hs, cache, index, idx, mixes, CellAt(hs, cache, index))
  {
    hide CellMix, LittleEndian, Mixed, Slot, LooksUp, IsStart;
    FirstMix(hs, cache, index, idx);
    var entry: Bytes := cache[index % |cache|];
    StartIs(hs, cache, index, idx, XorBytes(entry[..8], idx) + entry[8..]);
    forall j | 0 <= j < 128
      ensures LooksUp(hs, cache, index, j, mixes[j], mixes[j + 1])
    {
      NextMix(hs, cache, index, j);
      LookupIs(hs, cache, index, j, mixes[j], mixes[j + 1]);
    }
  }

  lemma {:induction false} CellMixUnique(hs: HashSuite, cache: Cache, index: Uint64, idx: Bytes, mixes: seq<Hash64>,
                                         cell: Cell, j: nat)
    requires cache != [] && idx == LittleEndian(index, 8) && j <= 128 && IsCell(hs, cache, index, idx, mixes, cell)
    ensures mixes[j] == CellMix(hs, cache, index, j)
  {
    hide CellMix, LittleEndian, Mixed, Slot, LooksUp, IsStart;
    if j == 0 {
      FirstMix(hs, cache, index, idx);
      var x: Bytes :| IsStart(cache, index, idx, x) && mixes[0] == hs.sha3x512(x);
      StartIs(hs, cache, index, idx, x);
    } else {
      CellMixUnique(hs, cache, index, idx, mixes, cell, j - 1);
      NextMix(hs, cache, index, j - 1);
      LookupIs(hs, cache, index, j - 1, mixes[j - 1], mixes[j]);
    }
  }

  /**
   Two caches that differ in the entry lookup j reads, and lead to the same mix before it, lead to
   different mixes after it, or show a SHA3-512 collision.
   */
  lemma EntryMatters(hs: HashSuite, cache: Cache, index: Uint64, j: nat, other: Hash64)
    requires cache != []
    ensures var mix := CellMix(hs, cache, index, j);
            var slot := Slot(cache, index, j, mix);
            var changed := cache[slot := other];
            other != cache[slot] && CellMix(hs, changed, index, j) == mix ==>
              CellMix(hs, changed, index, j + 1) != CellMix(hs, cache, index, j + 1)
              || Collision(hs.sha3x512, XorBytes(mix, cache[slot]), XorBytes(mix, other))
  {
    var mix := CellMix(hs, cache, index, j);
    var slot := Slot(cache, index, j, mix);
    var changed := cache[slot := other];
    NextMix(hs, cache, index, j);
    NextMix(hs, changed, index, j);
    hide CellMix, Mixed;
    if other != cache[slot] {
      MixedCommits(hs, mix, cache[slot], other);
    }
  }

  /** An entry that has not been read yet has had no influence. */
  lemma {:induction false} UnreadDoesNotMatter(hs: HashSuite, cache: Cache, index: Uint64, j: nat, slot: nat,
                                               other: Hash64)
    requires slot < |cache| && slot != index % |cache|
    requires forall k :: 0 <= k < j ==> Slot(cache, index, k, CellMix(hs, cache, index, k)) != slot
    ensures CellMix(hs, cache[slot := other], index, j) == CellMix(hs, cache, index, j)
  {
    hide CellMix, Mixed;
    if j == 0 {
      FirstMix(hs, cache, index, LittleEndian(index, 8));
      FirstMix(hs, cache[slot := other], index, LittleEndian(index, 8));
    } else {
      UnreadDoesNotMatter(hs, cache, index, j - 1, slot, other);
      NextMix(hs, cache, index, j - 1);
      NextMix(hs, cache[slot := other], index, j - 1);
    }
  }

  // ----- the older filling -----

  /** Four digests in a row, each of the one before, the first one of the seed and the index. */
  ghost predicate IsKeccakCell(hs: HashSuite, seed: Bytes, idx: Bytes, cell: Bytes) {
    && |cell| == 256 && cell[..64] == hs.keccak512(seed + idx)
    && forall k {:trigger cell[64 * k..64 * k + 64]} :: 0 < k < 4 ==>
      cell[64 * k..64 * k + 64] == hs.keccak512(cell[64 * k - 64..64 * k])
  }

  lemma {:induction false} ChainedPart(hs: HashSuite, seed: Bytes, index: Uint64, blocks: nat, k: nat)
    requires k < blocks
    ensures ChainedBytes(hs, seed, index, blocks)[64 * k..64 * k + 64] == ChainedKeccak(hs, seed, index, k)
  {
    hide ChainedKeccak;
    var init := ChainedBytes(hs, seed, index, blocks - 1);
    if k == blocks - 1 {
      assert (init + ChainedKeccak(hs, seed, index, k))[64 * k..64 * k + 64] == ChainedKeccak(hs, seed, index, k);
    } else {
      ChainedPart(hs, seed, index, blocks - 1, k);
      assert (init + ChainedKeccak(hs, seed, index, blocks - 1))[64 * k..64 * k + 64] == init[64 * k..64 * k + 64];
    }
  }

  lemma KeccakCellIs(hs: HashSuite, seed: Bytes, index: Uint64, idx: Bytes)
    requires |idx| == 8 && FromLittleEndian(idx) == index
    ensures IsKeccakCell(hs, seed, idx, ChainedBytes(hs, seed, index, 4))
  {
    TraceLaws.NonceBytesUnique(index, idx);
    var cell := ChainedBytes(hs, seed, index, 4);
    ChainedPart(hs, seed, index, 4, 0);
    hide ChainedBytes, LittleEndian, FromLittleEndian;
    forall k {:trigger cell[64 * k..64 * k + 64]} | 0 < k < 4
      ensures cell[64 * k..64 * k + 64] == hs.keccak512(cell[64 * k - 64..64 * k])
    {
      ChainedPart(hs, seed, index, 4, k);
      ChainedPart(hs, seed, index, 4, k - 1);
    }
  }

  /** A node is a cell of the seed cache if the mode is spelled out, and the older node in every other mode. */
  lemma NodeMeans(hs: HashSuite, spec: Spec, seed: Bytes, index: Uint64, idx: Bytes, cache: Cache)
    requires |idx| == 8 && FromLittleEndian(idx) == index
    requires |cache| == CacheEntriesFor(spec) && cache == SeedCache(hs, seed, |cache|)
    ensures spec.mode == "colossusx" ==>
      exists mixes :: IsCell(hs, cache, index, idx, mixes, NodeFor(hs, spec, seed, index))
    ensures spec.mode != "colossusx" ==> IsKeccakCell(hs, seed, idx, NodeFor(hs, spec, seed, index))
  {
    hide CellAt, SeedCache, IsCell, IsKeccakCell, ChainedBytes;
    CellIs(hs, cache, index, idx, NodeFor(hs, spec, seed, index));
    KeccakCellIs(hs, seed, index, idx);
  }

  /** Generation goes ahead for a valid specification, a seed, and a buffer of the specification's own size. */
  lemma GenerationMeans(spec: Spec, size: nat, seed: Bytes)
    ensures GenerationError(spec, size, seed).None? <==> spec.Valid() && seed != [] && spec.dagSizeBytes <= size
  {
  }
}
