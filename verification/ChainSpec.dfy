/** Chain parameters: the size of the DAG at a height and the epoch a header may claim. */
module ChainSpec {
  import opened Base
  import opened Arithmetic

  const COLOSSUSX_NODE_SIZE: Uint64 := 256
  const DEFAULT_DAG_GROWTH_BYTES_PER_EPOCH: Uint64 := 0x1000_0000
  const EPOCH_GRACE_BLOCKS: Uint64 := 64
  const MAX_UINT64: Uint64 := 0xFFFF_FFFF_FFFF_FFFF
  const MODE_COLOSSUSX: string := "colossusx"

  /** The largest multiple of the node size that fits 64 bits. */
  const LARGEST_DAG: Uint64 := 0xFFFF_FFFF_FFFF_FF00

  /** Unsigned 64-bit arithmetic. */
  function Wrap64(n: int): Uint64 {
    n % TWO_64
  }

  datatype Spec = Spec(
    mode: string,
    dagSizeBytes: Uint64,
    initialDagSizeBytes: Uint64,
    dagGrowthBytesPerEpoch: Uint64,
    nodeSize: Uint64,
    readsPerHash: Uint64,
    epochBlocks: Uint64,
    algorithmVersion: Uint32,
    genesisHash: Hash32)
  {
    function InitialDagSize(): Uint64 {
      if initialDagSizeBytes != 0 then initialDagSizeBytes else dagSizeBytes
    }

    function GrowthPerEpoch(): Uint64 {
      if dagGrowthBytesPerEpoch != 0 then dagGrowthBytesPerEpoch else DEFAULT_DAG_GROWTH_BYTES_PER_EPOCH
    }

    /** The error a specification is refused with, if any. */
    function Validate(): Option<string> {
      var effectiveMode := if mode == "" then MODE_COLOSSUSX else mode;
      if InitialDagSize() == 0 then Some("initial dag size must be > 0")
      else if GrowthPerEpoch() == 0 then Some("dag growth per epoch must be > 0")
      else if nodeSize != COLOSSUSX_NODE_SIZE then Some("COLOSSUS-X requires 256-byte nodes")
      else if readsPerHash == 0 then Some("reads/hash must be > 0")
      else if epochBlocks == 0 then Some("epoch blocks must be > 0")
      else if InitialDagSize() % nodeSize != 0 then Some("initial dag size must be multiple of node size")
      else if GrowthPerEpoch() % nodeSize != 0 then Some("dag growth per epoch must be multiple of node size")
      else if effectiveMode != MODE_COLOSSUSX then Some("unsupported mode")
      else None
    }

    predicate Valid() {
      Validate().None?
    }

    function DagSizeForEpoch(epoch: Uint64): Uint64
      requires nodeSize != 0
    {
      var initial := InitialDagSize();
      var growth := GrowthPerEpoch();
      if initial == 0 then 0
      else if growth == 0 || epoch == 0 then initial
      else if epoch > (MAX_UINT64 - initial) / growth then MAX_UINT64 - MAX_UINT64 % nodeSize
      else Wrap64(initial + Wrap64(epoch * growth))
    }

    function DagSizeForHeight(height: Uint64): Uint64
      requires nodeSize != 0
    {
      if epochBlocks == 0 then DagSizeForEpoch(0) else DagSizeForEpoch(EpochOf(height))
    }

    function EpochOf(height: Uint64): (epoch: Uint64)
      requires epochBlocks != 0
    {
      QuotientBound(height, epochBlocks);
      height / epochBlocks
    }

    function NodeCount(): (count: Uint64)
    {
      if nodeSize == 0 then 0
      else
        var size := if dagSizeBytes == 0 then DagSizeForHeight(0) else dagSizeBytes;
        QuotientBound(size, nodeSize);
        size / nodeSize
    }

    function EpochSeedForHeight(hs: HashSuite, height: Uint64): Hash32 {
      var epoch := if epochBlocks != 0 then EpochOf(height) else 0;
      hs.sha3x256(BigEndian(epoch, 8) + genesisHash)
    }
  }

  /** What makes a specification valid. */
  lemma ValidMeans(spec: Spec)
    ensures spec.Valid() <==>
      && (if spec.initialDagSizeBytes != 0 then spec.initialDagSizeBytes % 256 == 0
          else spec.dagSizeBytes != 0 && spec.dagSizeBytes % 256 == 0)
      && spec.dagGrowthBytesPerEpoch % 256 == 0
      && spec.nodeSize == 256 && spec.readsPerHash > 0 && spec.epochBlocks > 0
      && (spec.mode == "" || spec.mode == "colossusx")
  {
  }

  function Min(a: int, b: int): int {
    if a <= b then a else b
  }

  /** The size a chain's DAG would have with unbounded arithmetic, capped at the largest size there is. */
  function IdealDagSize(spec: Spec, epoch: nat): int {
    Min(spec.InitialDagSize() + epoch * spec.GrowthPerEpoch(), LARGEST_DAG)
  }

  /** No valid specification makes the size wrap: it saturates, and stays a positive number of nodes. */
  lemma DagSizeIsIdeal(spec: Spec, epoch: Uint64)
    requires spec.Valid()
    ensures spec.DagSizeForEpoch(epoch) == IdealDagSize(spec, epoch)
    ensures spec.DagSizeForEpoch(epoch) > 0 && spec.DagSizeForEpoch(epoch) % 256 == 0
  {
    var initial, growth := spec.InitialDagSize(), spec.GrowthPerEpoch();
    GuardIsExact(epoch, MAX_UINT64 - initial, growth);
    var added := epoch * growth;
    MulMonotone(0, epoch, growth);
    MultipleOfNode(initial, epoch, growth);
    SaturatedSum(initial, added);
  }

  /** Multiples of the node size that fit 64 bits stay below the cap, and do not wrap. */
  lemma SaturatedSum(initial: Uint64, added: nat)
    requires (initial + added) % 256 == 0
    ensures MAX_UINT64 - MAX_UINT64 % 256 == LARGEST_DAG
    ensures added <= MAX_UINT64 - initial ==>
      Wrap64(initial + Wrap64(added)) == initial + added == Min(initial + added, LARGEST_DAG)
    ensures added > MAX_UINT64 - initial ==> Min(initial + added, LARGEST_DAG) == LARGEST_DAG
  {
  }

  lemma GuardIsExact(epoch: nat, room: nat, growth: nat)
    requires growth > 0
    ensures epoch > room / growth <==> epoch * growth > room
  {
    DivMod(room, growth);
    MulMonotone(room / growth, epoch, growth);
    MulMonotone(epoch, room / growth, growth);
  }

  lemma MultipleOfNode(initial: nat, epoch: nat, growth: nat)
    requires initial % 256 == 0 && growth % 256 == 0
    ensures (initial + epoch * growth) % 256 == 0
  {
    var a, b := initial / 256, growth / 256;
    assert epoch * growth == epoch * (256 * b) == 256 * (epoch * b);
    QuotientUnique(initial + epoch * growth, 256, a + epoch * b, 0);
  }

  /** Later blocks never have a smaller DAG. */
  lemma DagSizeMonotone(spec: Spec, low: Uint64, high: Uint64)
    requires spec.Valid() && low <= high
    ensures spec.DagSizeForHeight(low) <= spec.DagSizeForHeight(high)
  {
    DagSizeIsIdeal(spec, spec.EpochOf(low));
    DagSizeIsIdeal(spec, spec.EpochOf(high));
    QuotientMonotone(low, high, spec.epochBlocks);
    MulMonotone(spec.EpochOf(low), spec.EpochOf(high), spec.GrowthPerEpoch());
  }

  /** As many nodes as fit the size; the count leaves eight bits of headroom, so counting nodes cannot wrap. */
  lemma NodeCountBound(spec: Spec)
    requires spec.Valid()
    ensures spec.NodeCount() < 0x100_0000_0000_0000
    ensures var size := if spec.dagSizeBytes == 0 then spec.DagSizeForHeight(0) else spec.dagSizeBytes;
            spec.NodeCount() * 256 <= size < spec.NodeCount() * 256 + 256
  {
  }

  // ----- epoch parameters of a header -----

  datatype EpochClaim = EpochClaim(height: Uint64, dagSizeBytes: Uint64, epochSeed: Hash32)

  /** The check made on a header's size and seed. */
  method ValidateEpochParameters(hs: HashSuite, spec: Spec, claim: EpochClaim) returns (ok: bool)
    requires spec.Valid()
    ensures ok <==> EpochAcceptable(hs, spec, claim)
  {
    var epoch := spec.EpochOf(claim.height);
    DagSizeIsIdeal(spec, epoch);
    QuotientSub(claim.height, spec.epochBlocks);
    var currentSize := spec.DagSizeForHeight(claim.height);
    var currentSeed := spec.EpochSeedForHeight(hs, claim.height);
    if claim.dagSizeBytes == currentSize && claim.epochSeed == currentSeed {
      return true;
    }
    if spec.epochBlocks == 0 {
      assert false; // a validator only exists for a valid specification
    }
    if claim.height < spec.epochBlocks {
      return false;
    }
    var offset := claim.height % spec.epochBlocks;
    if offset >= EPOCH_GRACE_BLOCKS {
      return false;
    }
    var prevHeight := claim.height - spec.epochBlocks;
    DagSizeIsIdeal(spec, epoch - 1);
    var prevSize := spec.DagSizeForHeight(prevHeight);
    var prevSeed := spec.EpochSeedForHeight(hs, prevHeight);
    if claim.dagSizeBytes == prevSize && claim.epochSeed == prevSeed {
      return true;
    }
    return false;
  }

  /** A header matches an epoch when it carries that epoch's size and seed. */
  predicate MatchesEpoch(hs: HashSuite, spec: Spec, claim: EpochClaim, epoch: nat) {
    && claim.dagSizeBytes == IdealDagSize(spec, epoch)
    && claim.epochSeed == hs.sha3x256(BigEndian(epoch, 8) + spec.genesisHash)
  }

  /** Its own epoch's parameters always; the previous epoch's for the first 64 blocks of a later epoch. */
  predicate EpochAcceptable(hs: HashSuite, spec: Spec, claim: EpochClaim)
    requires spec.Valid()
  {
    var epoch := spec.EpochOf(claim.height);
    || MatchesEpoch(hs, spec, claim, epoch)
    || (epoch >= 1 && claim.height % spec.epochBlocks < EPOCH_GRACE_BLOCKS && MatchesEpoch(hs, spec, claim, epoch - 1))
  }
}
