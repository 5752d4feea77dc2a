/** Where the payload of an install is staged when one volume is enough: an existing volume of the best
    rank, or a new one shrunk off the target. */
module StagingSelection {
  import opened Wrappers
  import opened MachineIntegers
  import opened Text

  const STAGING_HEADROOM_BYTES: u64 := 2 * GIB

  datatype StorageMedia = SolidState | Rotational | UnknownMedia
  datatype StorageAttachment = Internal | External | UnknownAttachment

  datatype StagingCandidate = StagingCandidate(
    letter: char, disk: Option<u32>, media: StorageMedia, attachment: StorageAttachment, freeBytes: u64)

  datatype ShrinkCandidate = ShrinkCandidate(
    letter: char, attachment: StorageAttachment, freeBytes: u64, shrinkIsSafe: bool)

  datatype StagingPlan =
    | Existing(letter: char, requiredBytes: u64)
    | ShrinkTarget(letter: char, sizeMb: u64, requiredBytes: u64)
    | Unavailable(requiredBytes: u64)

  function RequiredStagingBytes(payloadBytes: u64): Option<u64> {
    if payloadBytes + STAGING_HEADROOM_BYTES > U64_MAX then None else Some(payloadBytes + STAGING_HEADROOM_BYTES)
  }

  function MediaScore(attachment: StorageAttachment, media: StorageMedia): nat {
    match (attachment, media)
    case (Internal, SolidState) => 600
    case (Internal, UnknownMedia) => 450
    case (Internal, Rotational) => 350
    case (UnknownAttachment, SolidState) => 325
    case (UnknownAttachment, UnknownMedia) => 275
    case (UnknownAttachment, Rotational) => 250
    case (External, SolidState) => 225
    case (External, UnknownMedia) => 175
    case (External, Rotational) => 150
  }

  /** Larger is better, except that the earlier letter wins. */
  datatype Rank = Rank(score: nat, differentDisk: bool, remaining: u64, letter: char)

  function CandidateRank(c: StagingCandidate, targetDisk: Option<u32>, required: u64): Rank {
    Rank(MediaScore(c.attachment, c.media),
         c.disk.Some? && targetDisk.Some? && c.disk != targetDisk,
         SaturatingSub(c.freeBytes, required),
         AsciiUpper(c.letter))
  }

  predicate Higher(a: Rank, b: Rank) {
    if a.score != b.score then a.score > b.score
    else if a.differentDisk != b.differentDisk then a.differentDisk
    else if a.remaining != b.remaining then a.remaining > b.remaining
    else a.letter < b.letter
  }

  predicate HasRoom(c: StagingCandidate, required: u64) {
    c.freeBytes >= required
  }

  /** The last candidate of maximal rank among those with room. */
  function BestExisting(cs: seq<StagingCandidate>, targetDisk: Option<u32>, required: u64): Option<StagingCandidate> {
    if cs == [] then None
    else
      var n := |cs| - 1;
      var best := BestExisting(cs[..n], targetDisk, required);
      if !HasRoom(cs[n], required) then best
      else if best.Some?
        && Higher(CandidateRank(best.value, targetDisk, required), CandidateRank(cs[n], targetDisk, required))
      then best
      else Some(cs[n])
  }

  predicate ShrinkHasRoom(target: ShrinkCandidate, required: u64) {
    target.shrinkIsSafe && target.freeBytes >= required
  }

  predicate PrefersFixedShrink(existing: StagingCandidate, target: ShrinkCandidate) {
    !target.attachment.External? && existing.attachment.External?
  }

  function DivCeil(a: u64, b: u64): u64
    requires b > 0
  {
    if a % b == 0 then a / b else a / b + 1
  }

  function SelectStagingPlan(payloadBytes: u64, targetDisk: Option<u32>, cs: seq<StagingCandidate>,
                             shrink: Option<ShrinkCandidate>): StagingPlan {
    var required := RequiredStagingBytes(payloadBytes);
    if required.None? then Unavailable(U64_MAX)
    else
      var best := BestExisting(cs, targetDisk, required.value);
      var safe := if shrink.Some? && ShrinkHasRoom(shrink.value, required.value) then shrink else None;
      if safe.Some? && (best.None? || PrefersFixedShrink(best.value, safe.value)) then
        ShrinkTarget(safe.value.letter, DivCeil(required.value, MIB), required.value)
      else if best.Some? then Existing(best.value.letter, required.value)
      else Unavailable(required.value)
  }

  // ---------------------------------------------------------------------------------------------
  // The chosen candidate
  // ---------------------------------------------------------------------------------------------

  /** A candidate with room that no other candidate with room outranks. */
  ghost predicate IsTop(c: StagingCandidate, cs: seq<StagingCandidate>, targetDisk: Option<u32>, required: u64) {
    && c in cs && HasRoom(c, required)
    && forall d :: d in cs && HasRoom(d, required) ==>
         !Higher(CandidateRank(d, targetDisk, required), CandidateRank(c, targetDisk, required))
  }

  /** The choice is a top candidate, and there is one whenever any candidate has room. */
  lemma {:induction false} BestIsTop(cs: seq<StagingCandidate>, targetDisk: Option<u32>, required: u64)
    ensures var best := BestExisting(cs, targetDisk, required);
      && (best.Some? ==> IsTop(best.value, cs, targetDisk, required))
      && (best.None? <==> forall d :: d in cs ==> !HasRoom(d, required))
  {
    if cs != [] {
      var n := |cs| - 1;
      BestIsTop(cs[..n], targetDisk, required);
      assert cs == cs[..n] + [cs[n]];
      assert forall d :: d in cs <==> d in cs[..n] || d == cs[n];
    }
  }

  /** The kinds of volume, the best first. */
  const KINDS := [
    (Internal, SolidState), (Internal, UnknownMedia), (Internal, Rotational),
    (UnknownAttachment, SolidState), (UnknownAttachment, UnknownMedia), (UnknownAttachment, Rotational),
    (External, SolidState), (External, UnknownMedia), (External, Rotational) ]

  /** The score descends along the list of kinds, and every kind is in it. */
  lemma KindsDescend(i: nat, j: nat)
    requires i < j < 9
    ensures MediaScore(KINDS[i].0, KINDS[i].1) > MediaScore(KINDS[j].0, KINDS[j].1)
  {
  }

  function KindPlace(c: StagingCandidate): (place: nat)
    ensures place < 9 && KINDS[place] == (c.attachment, c.media)
  {
    var row := match c.attachment case Internal => 0 case UnknownAttachment => 3 case External => 6;
    var column := match c.media case SolidState => 0 case UnknownMedia => 1 case Rotational => 2;
    assert KINDS[row + column] == (c.attachment, c.media);
    row + column
  }

  predicate OnAnotherDisk(c: StagingCandidate, targetDisk: Option<u32>) {
    c.disk.Some? && targetDisk.Some? && c.disk.value != targetDisk.value
  }

  function LetterCode(c: StagingCandidate): int {
    if 'a' <= c.letter <= 'z' then c.letter as int - 32 else c.letter as int
  }

  /** `c` is of a better kind than `d`; or of the same kind, and on another disk than the target when `d` is not;
      or the same in this too, and has more free bytes; or as many, and no later letter. */
  predicate NoWorse(c: StagingCandidate, d: StagingCandidate, targetDisk: Option<u32>) {
    if KindPlace(c) != KindPlace(d) then KindPlace(c) < KindPlace(d)
    else if OnAnotherDisk(c, targetDisk) != OnAnotherDisk(d, targetDisk) then OnAnotherDisk(c, targetDisk)
    else c.freeBytes > d.freeBytes || (c.freeBytes == d.freeBytes && LetterCode(c) <= LetterCode(d))
  }

  lemma RankIsOrder(c: StagingCandidate, d: StagingCandidate, targetDisk: Option<u32>, required: u64)
    requires HasRoom(c, required) && HasRoom(d, required)
    ensures NoWorse(c, d, targetDisk) <==>
      !Higher(CandidateRank(d, targetDisk, required), CandidateRank(c, targetDisk, required))
  {
    if KindPlace(c) < KindPlace(d) { KindsDescend(KindPlace(c), KindPlace(d)); }
    if KindPlace(d) < KindPlace(c) { KindsDescend(KindPlace(d), KindPlace(c)); }
  }

  /** A top candidate has room, and is no worse than any other with room. */
  lemma TopIsNoWorse(c: StagingCandidate, cs: seq<StagingCandidate>, targetDisk: Option<u32>, required: u64)
    ensures IsTop(c, cs, targetDisk, required) <==>
      && c in cs && c.freeBytes >= required
      && forall d :: d in cs && d.freeBytes >= required ==> NoWorse(c, d, targetDisk)
  {
    forall d | d in cs && HasRoom(d, required) && HasRoom(c, required)
      ensures NoWorse(c, d, targetDisk) <==>
        !Higher(CandidateRank(d, targetDisk, required), CandidateRank(c, targetDisk, required))
    {
      RankIsOrder(c, d, targetDisk, required);
    }
  }

  /** A top candidate that is scanned last is the choice. */
  lemma LastTopWins(cs: seq<StagingCandidate>, c: StagingCandidate, targetDisk: Option<u32>, required: u64)
    requires IsTop(c, cs + [c], targetDisk, required)
    ensures BestExisting(cs + [c], targetDisk, required) == Some(c)
  {
    assert (cs + [c])[..|cs|] == cs;
    BestIsTop(cs, targetDisk, required);
    assert forall d :: d in cs ==> d in cs + [c];
  }

  /** Every top candidate is the choice in some scan order. */
  lemma AnyTopCanWin(cs: seq<StagingCandidate>, c: StagingCandidate, targetDisk: Option<u32>, required: u64)
    returns (ws: seq<StagingCandidate>)
    requires IsTop(c, cs, targetDisk, required)
    ensures multiset(ws) == multiset(cs) && BestExisting(ws, targetDisk, required) == Some(c)
  {
    var i :| 0 <= i < |cs| && cs[i] == c;
    var rest := cs[..i] + cs[i + 1..];
    ws := rest + [c];
    assert cs == cs[..i] + ([c] + cs[i + 1..]);
    assert multiset(ws) == multiset(cs);
    SameMembers(ws, cs);
    LastTopWins(rest, c, targetDisk, required);
  }

  lemma SameMembers(a: seq<StagingCandidate>, b: seq<StagingCandidate>)
    requires multiset(a) == multiset(b)
    ensures forall d :: d in a <==> d in b
  {
    forall d ensures d in a <==> d in b { assert d in a <==> d in multiset(a); assert d in b <==> d in multiset(b); }
  }

  ghost predicate OrderIrrelevant(cs: seq<StagingCandidate>, targetDisk: Option<u32>, required: u64) {
    forall ws :: multiset(ws) == multiset(cs) ==>
      BestExisting(ws, targetDisk, required) == BestExisting(cs, targetDisk, required)
  }

  /** The choice is the same in every scan order exactly when there is at most one top candidate. */
  lemma ScanOrderIsIrrelevantIff(cs: seq<StagingCandidate>, targetDisk: Option<u32>, required: u64)
    ensures OrderIrrelevant(cs, targetDisk, required) <==>
            forall c, d :: IsTop(c, cs, targetDisk, required) && IsTop(d, cs, targetDisk, required) ==> c == d
  {
    if OrderIrrelevant(cs, targetDisk, required) {
      forall c, d | IsTop(c, cs, targetDisk, required) && IsTop(d, cs, targetDisk, required) ensures c == d {
        var ws := AnyTopCanWin(cs, c, targetDisk, required);
        var zs := AnyTopCanWin(cs, d, targetDisk, required);
      }
    }
    if forall c, d :: IsTop(c, cs, targetDisk, required) && IsTop(d, cs, targetDisk, required) ==> c == d {
      BestIsTop(cs, targetDisk, required);
      forall ws | multiset(ws) == multiset(cs)
        ensures BestExisting(ws, targetDisk, required) == BestExisting(cs, targetDisk, required)
      {
        SameMembers(ws, cs);
        BestIsTop(ws, targetDisk, required);
        var best := BestExisting(ws, targetDisk, required);
        assert best.Some? ==> IsTop(best.value, cs, targetDisk, required);
      }
    }
  }

  predicate DistinctLetters(cs: seq<StagingCandidate>) {
    forall c, d :: c in cs && d in cs && AsciiUpper(c.letter) == AsciiUpper(d.letter) ==> c == d
  }

  /** Letters that differ by more than their case make the plan independent of the scan order. */
  lemma PlanIgnoresScanOrder(payloadBytes: u64, targetDisk: Option<u32>, cs: seq<StagingCandidate>,
                             ws: seq<StagingCandidate>, shrink: Option<ShrinkCandidate>)
    requires DistinctLetters(cs) && multiset(cs) == multiset(ws)
    ensures SelectStagingPlan(payloadBytes, targetDisk, cs, shrink)
        == SelectStagingPlan(payloadBytes, targetDisk, ws, shrink)
  {
    if RequiredStagingBytes(payloadBytes).Some? {
      var required := RequiredStagingBytes(payloadBytes).value;
      forall c, d | IsTop(c, cs, targetDisk, required) && IsTop(d, cs, targetDisk, required) ensures c == d {
        assert AsciiUpper(c.letter) == AsciiUpper(d.letter);
      }
      ScanOrderIsIrrelevantIff(cs, targetDisk, required);
    }
  }

  // ---------------------------------------------------------------------------------------------
  // Which kind of plan
  // ---------------------------------------------------------------------------------------------

  /** An external volume is chosen only when every volume with room is external. */
  lemma ExternalIsLastResort(cs: seq<StagingCandidate>, targetDisk: Option<u32>, required: u64)
    requires BestExisting(cs, targetDisk, required).Some?
    ensures BestExisting(cs, targetDisk, required).value.attachment.External? <==>
            forall d :: d in cs && HasRoom(d, required) ==> d.attachment.External?
  {
    BestIsTop(cs, targetDisk, required);
    var best := BestExisting(cs, targetDisk, required).value;
    if best.attachment.External? {
      forall d | d in cs && HasRoom(d, required) ensures d.attachment.External? {
        assert !Higher(CandidateRank(d, targetDisk, required), CandidateRank(best, targetDisk, required));
      }
    }
  }

  /** The target is shrunk exactly when it safely can be and no volume with room is fixed, and either no
      volume has room at all or the target itself is not external. */
  lemma ShrinksExactly(payloadBytes: u64, targetDisk: Option<u32>, cs: seq<StagingCandidate>,
                       shrink: Option<ShrinkCandidate>)
    requires payloadBytes + 2_147_483_648 <= U64_MAX
    ensures var required := payloadBytes + 2_147_483_648;
      SelectStagingPlan(payloadBytes, targetDisk, cs, shrink).ShrinkTarget? <==>
        && shrink.Some? && shrink.value.shrinkIsSafe && shrink.value.freeBytes >= required
        && (forall d :: d in cs && d.freeBytes >= required ==> d.attachment.External?)
        && ((forall d :: d in cs ==> d.freeBytes < required) || !shrink.value.attachment.External?)
  {
    var required := RequiredStagingBytes(payloadBytes).value;
    BestIsTop(cs, targetDisk, required);
    if BestExisting(cs, targetDisk, required).Some? { ExternalIsLastResort(cs, targetDisk, required); }
    assert forall d :: HasRoom(d, required) <==> d.freeBytes >= required;
  }

  /** Staging is unavailable exactly when payload and 2 GiB overflow or neither an existing volume nor the target
      has room for them; an existing volume named by a plan has room and none with room is better; and a shrunk
      volume is the smallest whole number of MiB that holds payload and headroom. */
  lemma PlanIsSound(payloadBytes: u64, targetDisk: Option<u32>, cs: seq<StagingCandidate>,
                    shrink: Option<ShrinkCandidate>)
    ensures match SelectStagingPlan(payloadBytes, targetDisk, cs, shrink)
      case Existing(letter, required) =>
        && required == payloadBytes + 2_147_483_648
        && exists c :: c in cs && c.letter == letter && c.freeBytes >= required
                       && forall d :: d in cs && d.freeBytes >= required ==> NoWorse(c, d, targetDisk)
      case ShrinkTarget(letter, sizeMb, required) =>
        && required == payloadBytes + 2_147_483_648
        && shrink.Some? && shrink.value.letter == letter
        && shrink.value.shrinkIsSafe && shrink.value.freeBytes >= required
        && (sizeMb - 1) * 1_048_576 < required <= sizeMb * 1_048_576
      case Unavailable(required) =>
        if payloadBytes + 2_147_483_648 > U64_MAX then required == U64_MAX
        else
          && required == payloadBytes + 2_147_483_648
          && (forall d :: d in cs ==> d.freeBytes < required)
          && (shrink.Some? ==> !shrink.value.shrinkIsSafe || shrink.value.freeBytes < required)
  {
    if RequiredStagingBytes(payloadBytes).Some? {
      var required := RequiredStagingBytes(payloadBytes).value;
      BestIsTop(cs, targetDisk, required);
      var best := BestExisting(cs, targetDisk, required);
      if best.Some? { TopIsNoWorse(best.value, cs, targetDisk, required); }
      assert forall d :: HasRoom(d, required) <==> d.freeBytes >= required;
      assert required == MIB * (required / MIB) + required % MIB;
    }
  }

  /** Two spellings of one letter tie, and then the volume scanned last is chosen. */
  lemma CaseTwinsFollowScanOrder()
    ensures var lower := StagingCandidate('d', Some(1), SolidState, Internal, U64_MAX);
            var upper := StagingCandidate('D', Some(1), SolidState, Internal, U64_MAX);
      && SelectStagingPlan(0, Some(0), [lower, upper], None).letter == 'D'
      && SelectStagingPlan(0, Some(0), [upper, lower], None).letter == 'd'
  {
    var lower := StagingCandidate('d', Some(1), SolidState, Internal, U64_MAX);
    var upper := StagingCandidate('D', Some(1), SolidState, Internal, U64_MAX);
    LastTopWins([lower], upper, Some(0), STAGING_HEADROOM_BYTES);
    LastTopWins([upper], lower, Some(0), STAGING_HEADROOM_BYTES);
    assert [lower] + [upper] == [lower, upper] && [upper] + [lower] == [upper, lower];
  }
}
