/** Whether an image fits a partition once applied, and with how much compression. All arithmetic is on
    u64 with the original's saturation and truncation. */
module ApplyCapacity {
  import opened MachineIntegers

  const MIB256: u64 := 256 * MIB
  const ALLOWANCE_BYTES: u64 := 2 * GIB

  datatype ApplyPlan = Unknown | Normal | CompactXpress4k | CompactLzx | TooSmall(requiredBytes: u64)

  function UsableCapacity(partitionBytes: u64): u64 {
    SaturatingSub(SaturatingSub(partitionBytes, partitionBytes / 66), MIB256)
  }

  function LzxEstimate(expandedBytes: u64, imageFileBytes: u64, solidImage: bool): u64 {
    var estimate: u64 :=
      if imageFileBytes == 0 then expandedBytes / 100 * 65
      else if solidImage then SaturatingAdd(imageFileBytes, imageFileBytes / 100 * 45)
      else SaturatingAdd(imageFileBytes, imageFileBytes / 100 * 15);
    Min(Max(estimate, expandedBytes / 100 * 55), expandedBytes)
  }

  function XpressEstimate(expandedBytes: u64): u64 {
    expandedBytes / 100 * 72
  }

  function Need(bytes: u64): u64 {
    SaturatingAdd(bytes, ALLOWANCE_BYTES)
  }

  function Plan(expandedBytes: u64, imageFileBytes: u64, solidImage: bool, partitionBytes: u64,
                compactSupported: bool): ApplyPlan {
    if expandedBytes == 0 || partitionBytes == 0 then Unknown else
    var usable := UsableCapacity(partitionBytes);
    if Need(expandedBytes) <= usable then Normal
    else if !compactSupported then TooSmall(Need(expandedBytes))
    else if Need(XpressEstimate(expandedBytes)) <= usable then CompactXpress4k
    else
      var lzx := LzxEstimate(expandedBytes, imageFileBytes, solidImage);
      if Need(lzx) <= usable then CompactLzx else TooSmall(Need(lzx))
  }

  /** What formatting leaves of a partition: all but one part in 66, and 256 MiB. */
  function FreeAfterFormat(partitionBytes: u64): u64 {
    var left := partitionBytes - partitionBytes / 66 - 268_435_456;
    if left < 0 then 0 else left
  }

  /** The LZX size: the image file and 15 or 45 hundredths of it, or 65 hundredths of the expanded size when the
      file's size is unknown, but at least 55 hundredths of the expanded size and at most all of it. */
  predicate IsLzxSize(size: int, expandedBytes: u64, imageFileBytes: u64, solidImage: bool) {
    var guess := if imageFileBytes == 0 then 65 * (expandedBytes / 100)
                 else imageFileBytes + (if solidImage then 45 else 15) * (imageFileBytes / 100);
    var least := 55 * (expandedBytes / 100);
    size == if guess < least then least else if guess > expandedBytes then expandedBytes else guess
  }

  lemma LzxSize(expandedBytes: u64, imageFileBytes: u64, solidImage: bool)
    ensures IsLzxSize(LzxEstimate(expandedBytes, imageFileBytes, solidImage), expandedBytes, imageFileBytes, solidImage)
  {
  }

  /** What each answer means in bytes. The image is applied as it is exactly when it fits with 2 GiB to spare;
      compact files are used only when they are supported and it does not, in XPRESS form exactly when 72
      hundredths fit, else in LZX form exactly when the LZX size does; otherwise the requirement is reported. */
  lemma AnswersInBytes(expanded: u64, image: u64, solid: bool, partition: u64, compact: bool, lzx: int)
    requires expanded > 0 && partition > 0 && IsLzxSize(lzx, expanded, image, solid)
    ensures var plan, free := Plan(expanded, image, solid, partition, compact), FreeAfterFormat(partition);
      var fits := expanded + 2_147_483_648 <= free;
      var xpressFits := 72 * (expanded / 100) + 2_147_483_648 <= free;
      var lzxFits := lzx + 2_147_483_648 <= free;
      && (plan == Normal <==> fits)
      && (plan == CompactXpress4k <==> !fits && compact && xpressFits)
      && (plan == CompactLzx <==> !fits && compact && !xpressFits && lzxFits)
      && (plan.TooSmall? <==> !fits && (compact ==> !xpressFits && !lzxFits))
      && (plan.TooSmall? ==>
            plan.requiredBytes == Min(U64_MAX, (if compact then lzx else expanded) + 2_147_483_648))
  {
    LzxSize(expanded, image, solid);
    assert FreeAfterFormat(partition) == UsableCapacity(partition) < U64_MAX;
  }

  /** How far a plan compresses; a partition that is too small ranks last. */
  function Compression(plan: ApplyPlan): nat {
    match plan
    case Unknown => 0
    case Normal => 0
    case CompactXpress4k => 1
    case CompactLzx => 2
    case TooSmall(_) => 3
  }

  lemma UsableIsMonotone(a: u64, b: u64)
    requires a <= b
    ensures UsableCapacity(a) <= UsableCapacity(b)
  {
  }

  lemma LzxIsMonotone(a: u64, b: u64, imageFileBytes: u64, solidImage: bool)
    requires a <= b
    ensures LzxEstimate(a, imageFileBytes, solidImage) <= LzxEstimate(b, imageFileBytes, solidImage)
  {
    assert a / 100 <= b / 100;
  }

  /** A larger partition never needs a more compressed plan. */
  lemma LargerPartitionCompressesLess(expanded: u64, image: u64, solid: bool, partition: u64, larger: u64,
                                      compact: bool)
    requires 0 < partition <= larger
    ensures Compression(Plan(expanded, image, solid, larger, compact))
        <= Compression(Plan(expanded, image, solid, partition, compact))
  {
    UsableIsMonotone(partition, larger);
  }

  /** A larger expanded image never gets a less compressed plan. */
  lemma LargerImageCompressesMore(expanded: u64, larger: u64, image: u64, solid: bool, partition: u64, compact: bool)
    requires 0 < expanded <= larger
    ensures Compression(Plan(expanded, image, solid, partition, compact))
        <= Compression(Plan(larger, image, solid, partition, compact))
  {
    LzxIsMonotone(expanded, larger, image, solid);
    assert XpressEstimate(expanded) <= XpressEstimate(larger);
  }

  /** A partition whose usable capacity reaches the reported requirement is no longer too small. */
  lemma AdviceIsSufficient(expanded: u64, image: u64, solid: bool, partition: u64, compact: bool, advised: u64)
    requires Plan(expanded, image, solid, partition, compact).TooSmall?
    requires UsableCapacity(advised) >= Plan(expanded, image, solid, partition, compact).requiredBytes
    ensures !Plan(expanded, image, solid, advised, compact).TooSmall?
  {
  }

  /** No partition is as large as a requirement beyond u64, so a saturated requirement is never met. */
  lemma SaturatedAdviceIsUnreachable(partition: u64)
    ensures UsableCapacity(partition) < U64_MAX
  {
  }

  /** A partition with exactly `usable` bytes left after formatting. */
  function PartitionFor(usable: u64): (p: nat)
    ensures p <= U64_MAX ==> UsableCapacity(p) == usable
  {
    var kept := usable + MIB256;
    assert (kept + kept / 65) / 66 == kept / 65;
    kept + kept / 65
  }

  /** No smaller usable capacity than the reported requirement would do. */
  ghost predicate AdviceIsLeast(expanded: u64, image: u64, solid: bool, partition: u64, compact: bool)
    requires Plan(expanded, image, solid, partition, compact).TooSmall?
  {
    forall p: u64 :: p > 0 && !Plan(expanded, image, solid, p, compact).TooSmall? ==>
      UsableCapacity(p) >= Plan(expanded, image, solid, partition, compact).requiredBytes
  }

  /** The reported requirement is the least one exactly when compact files are not supported or the LZX
      estimate is no larger than the XPRESS estimate; otherwise it asks for more than XPRESS needs. */
  lemma AdviceIsLeastIff(expanded: u64, image: u64, solid: bool, partition: u64, compact: bool)
    requires Plan(expanded, image, solid, partition, compact).TooSmall?
    ensures AdviceIsLeast(expanded, image, solid, partition, compact)
            <==> (!compact || LzxEstimate(expanded, image, solid) <= XpressEstimate(expanded))
  {
    if compact && LzxEstimate(expanded, image, solid) > XpressEstimate(expanded) {
      var needed := Need(XpressEstimate(expanded));
      var p := PartitionFor(needed);
      assert needed <= 72 * (U64_MAX / 100) + ALLOWANCE_BYTES;
      assert p <= U64_MAX;
      assert !Plan(expanded, image, solid, p, compact).TooSmall?;
      assert UsableCapacity(p) < Plan(expanded, image, solid, partition, compact).requiredBytes;
    }
  }
}
