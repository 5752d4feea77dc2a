/** The automatic full-disk partition planner. Byte extents are u64; every checked or saturating
    operation of the original is written out. */
module FullDiskLayout {
  import opened Wrappers
  import opened MachineIntegers

  const MIN_USEFUL_DATA_BYTES: u64 := 4 * GIB
  const ESP_4KN_MINIMUM_BYTES: u64 := 300 * MIB
  const MSR_WINDOWS_7_MINIMUM_BYTES: u64 := 128 * MIB
  const MBR_SYSTEM_RESERVED_BYTES: u64 := 550 * MIB
  const FULL_DISK_WHOLE_WINDOWS_MAX_CAPACITY_BYTES: u64 := 256 * GIB
  const FULL_DISK_LARGE_CAPACITY_BYTES: u64 := 1536 * GIB
  const FULL_DISK_WINDOWS_DEFAULT_BYTES: u64 := 200 * GIB
  const FULL_DISK_WINDOWS_LARGE_DEFAULT_BYTES: u64 := 300 * GIB
  const WINDOWS_PREFERRED_FLOOR_BYTES: u64 := 64 * GIB
  const STAGING_RECIPIENT_DATA_BYTES: u64 := MIN_USEFUL_DATA_BYTES + 256 * MIB

  datatype PartitionStyle = Gpt | Mbr
  datatype DiskRole = WindowsDisk | DataDisk
  datatype PartitionRole = EfiSystem | MicrosoftReserved | SystemReserved | Windows | Data
  datatype Partition = Partition(offset: u64, length: u64, role: PartitionRole)
  datatype PlanError = InvalidDiskCapacity | InvalidWindowsPartitionSize | InvalidPreservedStaging

  type Layout = seq<Partition>

  // ---------------------------------------------------------------------------------------------
  // Layouts
  // ---------------------------------------------------------------------------------------------

  function End(p: Partition): int {
    p.offset + p.length
  }

  /** The partitions cover `from` to `to` in order, without gap or overlap. */
  predicate Tiles(layout: Layout, from: int, to: int) {
    && (layout == [] ==> from == to)
    && (layout != [] ==> layout[0].offset == from && End(layout[|layout| - 1]) == to)
    && (forall i :: 0 <= i < |layout| ==> layout[i].length > 0)
    && (forall i :: 0 < i < |layout| ==> End(layout[i - 1]) == layout[i].offset)
  }

  /** In disk order, pairwise disjoint and non-empty. */
  predicate OrderedDisjoint(layout: Layout) {
    && (forall i :: 0 <= i < |layout| ==> layout[i].length > 0)
    && (forall i, j :: 0 <= i < j < |layout| ==> End(layout[i]) <= layout[j].offset)
  }

  predicate Inside(layout: Layout, from: int, to: int) {
    forall i :: 0 <= i < |layout| ==> from <= layout[i].offset && End(layout[i]) <= to
  }

  /** No partition touches the bytes `from` to `to`. */
  predicate ClearOf(layout: Layout, from: int, to: int) {
    forall i :: 0 <= i < |layout| ==> End(layout[i]) <= from || to <= layout[i].offset
  }

  predicate DataVolumesAreUseful(layout: Layout) {
    forall i :: 0 <= i < |layout| && layout[i].role == Data ==> layout[i].length >= MIN_USEFUL_DATA_BYTES
  }

  /** Exactly one Windows volume, and its index. */
  predicate OnlyWindowsIs(layout: Layout, index: int) {
    0 <= index < |layout| && forall i :: 0 <= i < |layout| ==> (layout[i].role == Windows <==> i == index)
  }

  lemma {:induction false} TilesStartsBefore(layout: Layout, from: int, to: int, i: nat, j: nat)
    requires Tiles(layout, from, to) && i < j < |layout|
    ensures End(layout[i]) <= layout[j].offset
  {
    if i + 1 < j {
      TilesStartsBefore(layout, from, to, i, j - 1);
    }
  }

  lemma TilesExtends(layout: Layout, from: int, to: int, p: Partition)
    requires Tiles(layout, from, to) && p.offset == to && p.length > 0
    ensures Tiles(layout + [p], from, End(p))
  {
  }

  /** A tiling is ordered, disjoint and inside its bounds. */
  lemma TilingIsOrderedDisjoint(layout: Layout, from: int, to: int)
    requires Tiles(layout, from, to)
    ensures OrderedDisjoint(layout) && Inside(layout, from, to)
  {
    forall i, j | 0 <= i < j < |layout| ensures End(layout[i]) <= layout[j].offset {
      TilesStartsBefore(layout, from, to, i, j);
    }
    forall i | 0 <= i < |layout| ensures from <= layout[i].offset && End(layout[i]) <= to {
      if i > 0 { TilesStartsBefore(layout, from, to, 0, i); }
      if i < |layout| - 1 { TilesStartsBefore(layout, from, to, i, |layout| - 1); }
    }
  }

  /** A front layout and a back layout on the two sides of an extent. */
  lemma TwoSides(front: Layout, back: Layout, from: int, gapStart: int, gapEnd: int, to: int)
    requires OrderedDisjoint(front) && Inside(front, from, gapStart)
    requires OrderedDisjoint(back) && Inside(back, gapEnd, to)
    requires from <= gapStart <= gapEnd <= to
    ensures OrderedDisjoint(front + back) && Inside(front + back, from, to) && ClearOf(front + back, gapStart, gapEnd)
  {
    var layout := front + back;
    forall i | 0 <= i < |layout|
      ensures layout[i].length > 0 && from <= layout[i].offset && End(layout[i]) <= to
      ensures End(layout[i]) <= gapStart || gapEnd <= layout[i].offset
    {
      if i < |front| { assert layout[i] == front[i]; } else { assert layout[i] == back[i - |front|]; }
    }
    forall i, j | 0 <= i < j < |layout| ensures End(layout[i]) <= layout[j].offset {
      if j < |front| {
        assert layout[i] == front[i] && layout[j] == front[j];
      } else if i < |front| {
        assert layout[i] == front[i] && layout[j] == back[j - |front|];
      } else {
        assert layout[i] == back[i - |front|] && layout[j] == back[j - |front|];
      }
    }
  }

  // ---------------------------------------------------------------------------------------------
  // Sizes
  // ---------------------------------------------------------------------------------------------

  function Infrastructure(style: PartitionStyle): (parts: seq<(u64, PartitionRole)>)
    ensures forall i :: 0 <= i < |parts| ==> parts[i].0 > 0 && parts[i].1 != Windows && parts[i].1 != Data
    ensures 1 <= |parts| <= 2
  {
    match style
    case Gpt => [(ESP_4KN_MINIMUM_BYTES, EfiSystem), (MSR_WINDOWS_7_MINIMUM_BYTES, MicrosoftReserved)]
    case Mbr => [(MBR_SYSTEM_RESERVED_BYTES, SystemReserved)]
  }

  function InfrastructureBytes(style: PartitionStyle): u64 {
    match style
    case Gpt => ESP_4KN_MINIMUM_BYTES + MSR_WINDOWS_7_MINIMUM_BYTES
    case Mbr => MBR_SYSTEM_RESERVED_BYTES
  }

  function SumBytes(parts: seq<(u64, PartitionRole)>): nat {
    if parts == [] then 0 else SumBytes(parts[..|parts| - 1]) + parts[|parts| - 1].0
  }

  lemma InfrastructureSum(style: PartitionStyle)
    ensures SumBytes(Infrastructure(style)) == InfrastructureBytes(style)
  {
    var parts := Infrastructure(style);
    assert parts[..|parts|] == parts;
    if style == Gpt {
      assert parts[..1] == [(ESP_4KN_MINIMUM_BYTES, EfiSystem)];
      assert SumBytes([(ESP_4KN_MINIMUM_BYTES, EfiSystem)]) == SumBytes([]) + ESP_4KN_MINIMUM_BYTES;
    } else {
      assert parts[..0] == [];
    }
  }

  lemma {:induction false} SumOfPrefix(parts: seq<(u64, PartitionRole)>, n: nat)
    requires n <= |parts|
    ensures SumBytes(parts[..n]) <= SumBytes(parts)
    decreases |parts|
  {
    if n < |parts| {
      var shorter := parts[..|parts| - 1];
      SumOfPrefix(shorter, n);
      assert shorter[..n] == parts[..n];
    } else {
      assert parts[..n] == parts;
    }
  }

  /** The reserved partition a data disk of this style needs. */
  function ReservedBytes(style: PartitionStyle): u64 {
    if style == Gpt then MSR_WINDOWS_7_MINIMUM_BYTES else 0
  }

  /** Round up to the next whole MiB, saturating. */
  function AlignUpToMib(value: u64): (r: u64)
    ensures value <= r
    ensures value <= U64_MAX - (MIB - 1) ==> r % MIB == 0 && r < value + MIB
    ensures value > U64_MAX - (MIB - 1) ==> r == U64_MAX
  {
    var units := (value + MIB - 1) / MIB;
    if units * MIB > U64_MAX then U64_MAX else units * MIB
  }

  function AutomaticWindowsBytes(diskCapacity: u64, windowsMinimum: u64): (r: u64)
    ensures r >= windowsMinimum
  {
    var recommended: u64 :=
      if diskCapacity <= FULL_DISK_WHOLE_WINDOWS_MAX_CAPACITY_BYTES then U64_MAX
      else if diskCapacity < FULL_DISK_LARGE_CAPACITY_BYTES then FULL_DISK_WINDOWS_DEFAULT_BYTES
      else FULL_DISK_WINDOWS_LARGE_DEFAULT_BYTES;
    Max(recommended, windowsMinimum)
  }

  /** The size of the Windows volume within `available` bytes. */
  function WindowsBytes(available: u64, windowsMinimum: u64, desiredBytes: u64, reclaimableAfter: u64): (r: u64)
    requires windowsMinimum <= available
    ensures windowsMinimum <= r <= available
    ensures r == available || available - r >= MIN_USEFUL_DATA_BYTES
  {
    var desired := Max(desiredBytes, windowsMinimum);
    if desired == U64_MAX then available
    else if SaturatingSub(available, desired) >= MIN_USEFUL_DATA_BYTES then desired
    else if reclaimableAfter >= MIN_USEFUL_DATA_BYTES
      && SaturatingSub(available, STAGING_RECIPIENT_DATA_BYTES) >= Max(windowsMinimum, WINDOWS_PREFERRED_FLOOR_BYTES)
    then available - STAGING_RECIPIENT_DATA_BYTES
    else available
  }

  /** The desired size whenever that leaves a useful data volume; else room for a recipient volume, exactly
      when something behind the layout can be reclaimed and Windows keeps its floor; else everything. */
  lemma WindowsSizePolicy(available: u64, windowsMinimum: u64, desiredBytes: u64, reclaimableAfter: u64)
    requires windowsMinimum <= available
    ensures var desired := Max(desiredBytes, windowsMinimum);
            var size := WindowsBytes(available, windowsMinimum, desiredBytes, reclaimableAfter);
            if available - desired >= MIN_USEFUL_DATA_BYTES then size == desired
            else if desired < U64_MAX && reclaimableAfter >= MIN_USEFUL_DATA_BYTES
              && available >= STAGING_RECIPIENT_DATA_BYTES + Max(windowsMinimum, WINDOWS_PREFERRED_FLOOR_BYTES)
            then size == available - STAGING_RECIPIENT_DATA_BYTES
            else size == available
  {
  }

  // ---------------------------------------------------------------------------------------------
  // The base planner
  // ---------------------------------------------------------------------------------------------

  /** What a planned disk must hold behind its start: for Windows the boot partitions and the minimum,
      for data the reserved partition and a useful volume. */
  function NeededBytes(style: PartitionStyle, role: DiskRole, windowsMinimum: u64): int {
    match role
    case WindowsDisk => InfrastructureBytes(style) + windowsMinimum
    case DataDisk => ReservedBytes(style) + MIN_USEFUL_DATA_BYTES
  }

  /** The boot partitions of the style in order, one Windows volume of the policy's size directly behind
      them, and at most one more partition. */
  predicate WindowsLayoutIs(layout: Layout, style: PartitionStyle, start: int, usableEnd: int,
                            windowsMinimum: u64, desiredWindows: u64, reclaimableAfter: u64)
  {
    var available := usableEnd - start - InfrastructureBytes(style);
    var boot := |Infrastructure(style)|;
    && windowsMinimum <= available <= U64_MAX
    && OnlyWindowsIs(layout, boot)
    && (forall i :: 0 <= i < boot ==> (layout[i].length, layout[i].role) == Infrastructure(style)[i])
    && layout[boot].offset == start + InfrastructureBytes(style)
    && layout[boot].length == WindowsBytes(available, windowsMinimum, desiredWindows, reclaimableAfter)
    && |layout| <= boot + 2
    && (|layout| == boot + 2 ==> layout[boot + 1].role == Data)
  }

  /** What a planned Windows disk holds behind its boot partitions: Windows of the desired size and all the
      rest as data whenever that data is useful; else, when something behind the disk's end can be reclaimed
      and Windows keeps its floor, a recipient volume at the end; else Windows alone. */
  lemma PlannedWindowsDisk(layout: Layout, style: PartitionStyle, start: int, usableEnd: int,
                           windowsMinimum: u64, desiredWindows: u64, reclaimableAfter: u64)
    requires Tiles(layout, start, usableEnd)
    requires WindowsLayoutIs(layout, style, start, usableEnd, windowsMinimum, desiredWindows, reclaimableAfter)
    ensures var boot := |Infrastructure(style)|;
            var available := usableEnd - start - InfrastructureBytes(style);
            var desired := Max(desiredWindows, windowsMinimum);
            if available - desired >= MIN_USEFUL_DATA_BYTES then
              HoldsWindowsAndData(layout, boot, desired, available - desired)
            else if desired < U64_MAX && reclaimableAfter >= MIN_USEFUL_DATA_BYTES
              && available >= STAGING_RECIPIENT_DATA_BYTES + Max(windowsMinimum, WINDOWS_PREFERRED_FLOOR_BYTES)
            then HoldsWindowsAndData(layout, boot, available - STAGING_RECIPIENT_DATA_BYTES,
                                     STAGING_RECIPIENT_DATA_BYTES)
            else |layout| == boot + 1 && layout[boot].length == available
  {
    var available := usableEnd - start - InfrastructureBytes(style);
    WindowsSizePolicy(available, windowsMinimum, desiredWindows, reclaimableAfter);
    WindowsThenRest(layout, style, start, usableEnd);
  }

  predicate HoldsWindowsAndData(layout: Layout, boot: nat, windowsBytes: int, dataBytes: int) {
    && |layout| == boot + 2 && layout[boot].length == windowsBytes
    && layout[boot + 1].role == Data && layout[boot + 1].length == dataBytes
  }

  /** In a tiling, Windows behind the boot partitions and a last partition share what the boot partitions leave. */
  lemma WindowsThenRest(layout: Layout, style: PartitionStyle, start: int, usableEnd: int)
    requires Tiles(layout, start, usableEnd)
    requires |Infrastructure(style)| < |layout| <= |Infrastructure(style)| + 2
    requires layout[|Infrastructure(style)|].offset == start + InfrastructureBytes(style)
    ensures var boot := |Infrastructure(style)|;
            var available := usableEnd - start - InfrastructureBytes(style);
            layout[boot].length + (if |layout| == boot + 2 then layout[boot + 1].length as int else 0) == available
  {
  }

  /** Plan from `start` to `usableEnd`. */
  method PlanLayoutFrom(
    style: PartitionStyle,
    role: DiskRole,
    start: u64,
    usableEnd: u64,
    windowsMinimum: u64,
    desiredWindows: u64,
    reclaimableAfter: u64)
    returns (r: Result<Layout, PlanError>)
    ensures r.Failure? ==>
      r.error == if role == WindowsDisk && windowsMinimum == 0 then InvalidWindowsPartitionSize else InvalidDiskCapacity
    ensures r.Success? <==>
      && (role == WindowsDisk ==> windowsMinimum > 0)
      && start + NeededBytes(style, role, windowsMinimum) <= usableEnd
    ensures r.Success? ==> Tiles(r.value, start, usableEnd) && DataVolumesAreUseful(r.value)
    ensures r.Success? && role == DataDisk ==>
      && |r.value| == (if style == Gpt then 2 else 1) && r.value[|r.value| - 1].role == Data
      && forall i :: 0 <= i < |r.value| - 1 ==>
           r.value[i].role == MicrosoftReserved && r.value[i].length == ReservedBytes(style)
    ensures r.Success? && role == WindowsDisk ==>
      WindowsLayoutIs(r.value, style, start, usableEnd, windowsMinimum, desiredWindows, reclaimableAfter)
  {
    if role == DataDisk {
      r := PlanDataFrom(style, start, usableEnd);
      return;
    }
    if windowsMinimum == 0 {
      return Failure(InvalidWindowsPartitionSize);
    }
    r := PlanWindowsFrom(style, start, usableEnd, windowsMinimum, desiredWindows, reclaimableAfter);
  }

  /** A Windows disk: boot partitions, Windows, and a data volume when at least a useful one is left. */
  method PlanWindowsFrom(
    style: PartitionStyle,
    start: u64,
    usableEnd: u64,
    windowsMinimum: u64,
    desiredWindows: u64,
    reclaimableAfter: u64)
    returns (r: Result<Layout, PlanError>)
    requires windowsMinimum > 0
    ensures r.Failure? ==> r.error == InvalidDiskCapacity
    ensures r.Success? <==> start + NeededBytes(style, WindowsDisk, windowsMinimum) <= usableEnd
    ensures r.Success? ==> Tiles(r.value, start, usableEnd) && DataVolumesAreUseful(r.value)
    ensures r.Success? ==>
      WindowsLayoutIs(r.value, style, start, usableEnd, windowsMinimum, desiredWindows, reclaimableAfter)
  {
    var placed := PlaceInfrastructure(style, start, usableEnd);
    if placed.None? {
      return Failure(InvalidDiskCapacity);
    }
    if windowsMinimum > usableEnd - placed.value.1 {
      return Failure(InvalidDiskCapacity);
    }
    var output := PlaceWindows(style, placed.value.0, start, usableEnd, windowsMinimum, desiredWindows,
                               reclaimableAfter);
    return Success(output);
  }

  /** Windows directly behind the boot partitions, and data behind it when a useful volume is left. */
  method PlaceWindows(
    style: PartitionStyle,
    boot: Layout,
    start: u64,
    usableEnd: u64,
    windowsMinimum: u64,
    desiredWindows: u64,
    reclaimableAfter: u64)
    returns (output: Layout)
    requires windowsMinimum > 0 && start + NeededBytes(style, WindowsDisk, windowsMinimum) <= usableEnd
    requires Tiles(boot, start, start + InfrastructureBytes(style)) && |boot| == |Infrastructure(style)|
    requires forall i :: 0 <= i < |boot| ==> (boot[i].length, boot[i].role) == Infrastructure(style)[i]
    ensures Tiles(output, start, usableEnd) && DataVolumesAreUseful(output)
    ensures WindowsLayoutIs(output, style, start, usableEnd, windowsMinimum, desiredWindows, reclaimableAfter)
  {
    var cursor := start + InfrastructureBytes(style);
    var requested := WindowsBytes(usableEnd - cursor, windowsMinimum, desiredWindows, reclaimableAfter);
    var windows := Partition(cursor, requested, Windows);
    BootThenWindows(boot, style, start, windows);
    output := boot + [windows];
    cursor := cursor + requested;
    var tail := usableEnd - cursor;
    if tail >= MIN_USEFUL_DATA_BYTES {
      DataTail(output, start, Partition(cursor, tail, Data), |output| - 1);
      output := output + [Partition(cursor, tail, Data)];
    }
    WindowsAsPlanned(output, boot, windows, style, start, usableEnd, windowsMinimum, desiredWindows, reclaimableAfter);
  }

  lemma WindowsAsPlanned(output: Layout, boot: Layout, windows: Partition, style: PartitionStyle, start: u64,
                         usableEnd: u64, windowsMinimum: u64, desiredWindows: u64, reclaimableAfter: u64)
    requires start + NeededBytes(style, WindowsDisk, windowsMinimum) <= usableEnd
    requires |boot| == |Infrastructure(style)| && boot + [windows] <= output && |output| <= |boot| + 2
    requires |output| == |boot| + 2 ==> output[|boot| + 1].role == Data
    requires forall i :: 0 <= i < |boot| ==> (boot[i].length, boot[i].role) == Infrastructure(style)[i]
    requires OnlyWindowsIs(output, |boot|) && windows.offset == start + InfrastructureBytes(style)
    requires var available := usableEnd - start - InfrastructureBytes(style);
      windows.length == WindowsBytes(available, windowsMinimum, desiredWindows, reclaimableAfter)
    ensures WindowsLayoutIs(output, style, start, usableEnd, windowsMinimum, desiredWindows, reclaimableAfter)
  {
    assert forall i :: 0 <= i < |boot| ==> output[i] == (boot + [windows])[i];
    assert output[|boot|] == (boot + [windows])[|boot|];
  }

  lemma DataTail(layout: Layout, start: int, data: Partition, w: int)
    requires Tiles(layout, start, data.offset) && OnlyWindowsIs(layout, w) && DataVolumesAreUseful(layout)
    requires data.role == Data && data.length >= MIN_USEFUL_DATA_BYTES
    ensures Tiles(layout + [data], start, End(data))
    ensures OnlyWindowsIs(layout + [data], w) && DataVolumesAreUseful(layout + [data])
  {
    TilesExtends(layout, start, data.offset, data);
  }

  lemma BootThenWindows(boot: Layout, style: PartitionStyle, start: int, windows: Partition)
    requires Tiles(boot, start, windows.offset) && windows.length > 0 && windows.role == Windows
    requires |boot| == |Infrastructure(style)|
    requires forall i :: 0 <= i < |boot| ==> (boot[i].length, boot[i].role) == Infrastructure(style)[i]
    ensures Tiles(boot + [windows], start, End(windows))
    ensures OnlyWindowsIs(boot + [windows], |boot|) && DataVolumesAreUseful(boot + [windows])
  {
    TilesExtends(boot, start, windows.offset, windows);
  }

  /** A data disk: the reserved partition its style needs, then one data volume. */
  method PlanDataFrom(style: PartitionStyle, start: u64, usableEnd: u64) returns (r: Result<Layout, PlanError>)
    ensures r.Success? <==> start + NeededBytes(style, DataDisk, 0) <= usableEnd
    ensures r.Failure? ==> r.error == InvalidDiskCapacity
    ensures r.Success? ==> Tiles(r.value, start, usableEnd) && DataVolumesAreUseful(r.value)
    ensures r.Success? ==> |r.value| == (if style == Gpt then 2 else 1)
    ensures r.Success? ==> forall i :: 0 <= i < |r.value| ==>
      r.value[i].role == if i == |r.value| - 1 then Data else MicrosoftReserved
    ensures r.Success? ==> forall i :: 0 <= i < |r.value| - 1 ==> r.value[i].length == ReservedBytes(style)
  {
    var cursor: int := start;
    var output: Layout := [];
    if style == Gpt {
      var end := cursor + MSR_WINDOWS_7_MINIMUM_BYTES;
      if end > U64_MAX || end > usableEnd {
        return Failure(InvalidDiskCapacity);
      }
      output := output + [Partition(cursor, MSR_WINDOWS_7_MINIMUM_BYTES, MicrosoftReserved)];
      cursor := end;
    }
    if usableEnd < cursor || usableEnd - cursor < MIN_USEFUL_DATA_BYTES {
      return Failure(InvalidDiskCapacity);
    }
    return Success(output + [Partition(cursor, usableEnd - cursor, Data)]);
  }

  /** The boot partitions of the style, from `start` on; `None` when they do not fit. */
  method PlaceInfrastructure(style: PartitionStyle, start: u64, usableEnd: u64) returns (r: Option<(Layout, u64)>)
    ensures r.Some? <==> start + InfrastructureBytes(style) <= usableEnd
    ensures r.Some? ==>
      && r.value.1 == start + InfrastructureBytes(style)
      && Tiles(r.value.0, start, r.value.1)
      && |r.value.0| == |Infrastructure(style)|
      && forall i :: 0 <= i < |r.value.0| ==> (r.value.0[i].length, r.value.0[i].role) == Infrastructure(style)[i]
  {
    var cursor: int := start;
    var output: Layout := [];
    var parts := Infrastructure(style);
    InfrastructureSum(style);
    for i := 0 to |parts|
      invariant |output| == i
      invariant cursor == start + SumBytes(parts[..i]) && (i > 0 ==> cursor <= usableEnd)
      invariant Tiles(output, start, cursor)
      invariant forall k :: 0 <= k < i ==> (output[k].length, output[k].role) == parts[k]
    {
      var end := cursor + parts[i].0;
      assert parts[..i + 1][..i] == parts[..i];
      SumOfPrefix(parts, i + 1);
      if end > U64_MAX || end > usableEnd {
        return None;
      }
      TilesExtends(output, start, cursor, Partition(cursor, parts[i].0, parts[i].1));
      output := output + [Partition(cursor, parts[i].0, parts[i].1)];
      cursor := end;
    }
    assert parts[..|parts|] == parts;
    return Some((output, cursor));
  }

  // ---------------------------------------------------------------------------------------------
  // The planners without a staging extent
  // ---------------------------------------------------------------------------------------------

  /** The bytes in front of `usableEnd` behind the first MiB and the boot partitions. */
  function RoomUpTo(style: PartitionStyle, usableEnd: u64): int {
    usableEnd - 1_048_576 - if style == Gpt then 448_790_528 else 576_716_800
  }

  /** In byte numbers, what fits in front of `usableEnd`. */
  predicate FitsUpTo(style: PartitionStyle, role: DiskRole, usableEnd: u64, windowsMinimum: u64) {
    match role
    case WindowsDisk => 0 < windowsMinimum <= RoomUpTo(style, usableEnd)
    case DataDisk => 1_048_576 + (if style == Gpt then 134_217_728 else 0) + 4_294_967_296 <= usableEnd
  }

  /** The one data volume of a data disk, behind the reserved partition of a GPT disk. */
  predicate IsDataUpTo(layout: Layout, style: PartitionStyle, usableEnd: u64) {
    var start := 1_048_576 + if style == Gpt then 134_217_728 else 0;
    && |layout| == (if style == Gpt then 2 else 1)
    && layout[|layout| - 1].role == Data
    && layout[|layout| - 1].offset == start && layout[|layout| - 1].length == usableEnd - start
  }

  /** The boot partitions, Windows of `windowsBytes`, and data in the rest of the room when there is a rest. */
  predicate IsWindowsUpTo(layout: Layout, style: PartitionStyle, usableEnd: u64, windowsBytes: int) {
    var boot := if style == Gpt then 2 else 1;
    var rest := RoomUpTo(style, usableEnd) - windowsBytes;
    && |layout| == (if rest == 0 then boot + 1 else boot + 2)
    && OnlyWindowsIs(layout, boot) && BootsWindows(layout, boot, style)
    && layout[boot].length == windowsBytes
    && (rest != 0 ==> layout[boot + 1].role == Data && layout[boot + 1].length == rest)
  }

  lemma DataUpTo(layout: Layout, style: PartitionStyle, usableEnd: u64)
    requires Tiles(layout, MIB, usableEnd)
    requires |layout| == (if style == Gpt then 2 else 1) && layout[|layout| - 1].role == Data
    requires forall i :: 0 <= i < |layout| - 1 ==> layout[i].length == ReservedBytes(style)
    ensures IsDataUpTo(layout, style, usableEnd)
  {
  }

  lemma WindowsUpTo(layout: Layout, style: PartitionStyle, usableEnd: u64, windowsMinimum: u64, desired: u64,
                    reclaimable: u64)
    requires Tiles(layout, MIB, usableEnd)
    requires WindowsLayoutIs(layout, style, MIB, usableEnd, windowsMinimum, desired, reclaimable)
    ensures windowsMinimum <= RoomUpTo(style, usableEnd) <= U64_MAX
    ensures IsWindowsUpTo(layout, style, usableEnd,
                          WindowsBytes(RoomUpTo(style, usableEnd), windowsMinimum, desired, reclaimable))
  {
    BootInBytes(layout, style, MIB, usableEnd);
    WindowsThenRest(layout, style, MIB, usableEnd);
  }

  /** The whole disk, or what is in front of an old staging extent, with Windows of exactly the requested size
      whenever the rest holds a useful data volume, and of all the room otherwise. */
  method PlanFullDisk(style: PartitionStyle, role: DiskRole, usableEnd: u64, windowsBytes: u64)
    returns (r: Result<Layout, PlanError>)
    ensures r.Success? <==> FitsUpTo(style, role, usableEnd, windowsBytes)
    ensures r.Success? ==> Tiles(r.value, 1_048_576, usableEnd)
    ensures r.Success? && role == DataDisk ==> IsDataUpTo(r.value, style, usableEnd)
    ensures r.Success? && role == WindowsDisk ==>
      var room := RoomUpTo(style, usableEnd);
      IsWindowsUpTo(r.value, style, usableEnd, if room - windowsBytes >= 4_294_967_296 then windowsBytes else room)
  {
    r := PlanLayoutFrom(style, role, MIB, usableEnd, windowsBytes, windowsBytes, 0);
    if r.Success? && role == DataDisk {
      DataUpTo(r.value, style, usableEnd);
    }
    if r.Success? && role == WindowsDisk {
      WindowsUpTo(r.value, style, usableEnd, windowsBytes, windowsBytes, 0);
    }
  }

  /** The automatic size on a disk of this capacity, in byte numbers: 200 GiB below 1536 GiB, 300 GiB from there
      on, the minimum when that is more; room for a recipient of 4 GiB and 256 MiB when that leaves less than
      4 GiB, 4 GiB behind the usable end are to be reclaimed, and Windows keeps the minimum and 64 GiB; and all
      the room otherwise, as on every disk of up to 256 GiB. */
  function SizeForDisk(room: int, capacity: int, reclaimable: int, windowsMinimum: u64): int {
    var usual := if capacity < 1_649_267_441_664 then 214_748_364_800 else 322_122_547_200;
    var size := if windowsMinimum > usual then windowsMinimum else usual;
    if capacity <= 274_877_906_944 then room
    else if room >= size + 4_294_967_296 then size
    else if reclaimable >= 4_294_967_296
      && room - 4_563_402_752 >= windowsMinimum && room - 4_563_402_752 >= 68_719_476_736
    then room - 4_563_402_752
    else room
  }

  lemma SizeForDiskIs(room: u64, capacity: u64, reclaimable: u64, windowsMinimum: u64)
    requires 0 < windowsMinimum <= room <= capacity
    ensures WindowsBytes(room, windowsMinimum, AutomaticWindowsBytes(capacity, windowsMinimum), reclaimable)
            == SizeForDisk(room, capacity, reclaimable, windowsMinimum)
  {
  }

  lemma WindowsUpToForDisk(layout: Layout, style: PartitionStyle, usableEnd: u64, windowsMinimum: u64, capacity: u64)
    requires Tiles(layout, MIB, usableEnd) && 0 < windowsMinimum && usableEnd <= capacity
    requires WindowsLayoutIs(layout, style, MIB, usableEnd, windowsMinimum,
                             AutomaticWindowsBytes(capacity, windowsMinimum), capacity - usableEnd)
    ensures IsWindowsUpTo(layout, style, usableEnd,
                          SizeForDisk(RoomUpTo(style, usableEnd), capacity, capacity - usableEnd, windowsMinimum))
  {
    WindowsUpTo(layout, style, usableEnd, windowsMinimum, AutomaticWindowsBytes(capacity, windowsMinimum),
                capacity - usableEnd);
    SizeForDiskIs(RoomUpTo(style, usableEnd), capacity, capacity - usableEnd, windowsMinimum);
  }

  /** The capacity-aware layout: the same with the automatic size. */
  method PlanFullDiskForDisk(style: PartitionStyle, role: DiskRole, usableEnd: u64, diskCapacity: u64,
                             windowsMinimum: u64)
    returns (r: Result<Layout, PlanError>)
    ensures r.Success? <==> FitsUpTo(style, role, usableEnd, windowsMinimum)
    ensures r.Success? ==> Tiles(r.value, 1_048_576, usableEnd)
    ensures r.Success? && role == DataDisk ==> IsDataUpTo(r.value, style, usableEnd)
    ensures r.Success? && role == WindowsDisk ==>
      var capacity := if usableEnd > diskCapacity then usableEnd else diskCapacity;
      IsWindowsUpTo(r.value, style, usableEnd,
                    SizeForDisk(RoomUpTo(style, usableEnd), capacity, capacity - usableEnd, windowsMinimum))
  {
    r := PlanWithin(style, role, usableEnd, Max(diskCapacity, usableEnd), windowsMinimum);
  }

  method PlanWithin(style: PartitionStyle, role: DiskRole, usableEnd: u64, capacity: u64, windowsMinimum: u64)
    returns (r: Result<Layout, PlanError>)
    requires usableEnd <= capacity
    ensures r.Success? <==> FitsUpTo(style, role, usableEnd, windowsMinimum)
    ensures r.Success? ==> Tiles(r.value, 1_048_576, usableEnd)
    ensures r.Success? && role == DataDisk ==> IsDataUpTo(r.value, style, usableEnd)
    ensures r.Success? && role == WindowsDisk ==>
      IsWindowsUpTo(r.value, style, usableEnd,
                    SizeForDisk(RoomUpTo(style, usableEnd), capacity, capacity - usableEnd, windowsMinimum))
  {
    var desired := AutomaticWindowsBytes(capacity, windowsMinimum);
    r := PlanLayoutFrom(style, role, MIB, usableEnd, windowsMinimum, desired, capacity - usableEnd);
    if r.Success? && role == DataDisk {
      DataUpTo(r.value, style, usableEnd);
    }
    if r.Success? && role == WindowsDisk {
      WindowsUpToForDisk(r.value, style, usableEnd, windowsMinimum, capacity);
    }
  }

  // ---------------------------------------------------------------------------------------------
  // Planning around a preserved staging extent
  // ---------------------------------------------------------------------------------------------

  /** A preserved staging extent on a disk: where it lies and what is left behind it. */
  datatype Staging = Staging(offset: u64, length: u64, backStart: u64, diskEnd: u64) {
    function End(): int {
      offset + length
    }

    function BackLength(): int {
      diskEnd - backStart
    }

    predicate Valid() {
      && offset > 0 && length > 0 && End() <= diskEnd
      && backStart == Min(AlignUpToMib(End()), diskEnd)
    }
  }

  /** What fits in front of the staging extent, and behind its MiB-aligned end. */
  predicate FrontFits(staging: Staging, needed: int) {
    MIB + needed <= staging.offset
  }

  predicate BackFits(staging: Staging, needed: int) {
    staging.backStart + needed <= staging.diskEnd
  }

  function StagingOn(diskCapacity: u64, offset: u64, length: u64): (s: Staging)
    requires offset > 0 && length > 0 && offset + length <= U64_MAX
    ensures s.Valid() && s.offset == offset && s.length == length
    ensures s.diskEnd == if offset + length > diskCapacity then offset + length else diskCapacity
    ensures s.backStart <= s.diskEnd && s.End() <= s.backStart < s.End() + 1_048_576
    ensures s.backStart % 1_048_576 == 0 || s.backStart == s.diskEnd
  {
    var diskEnd := Max(diskCapacity, offset + length);
    Staging(offset, length, Min(AlignUpToMib(offset + length), diskEnd), diskEnd)
  }

  /** Bytes in front of the staging extent behind the boot partitions. */
  function BeforeStaging(style: PartitionStyle, staging: Staging): int {
    staging.offset - MIB - InfrastructureBytes(style)
  }

  /** The front holds the minimum, but not the automatic size together with a data volume. */
  predicate FrontIsTight(style: PartitionStyle, staging: Staging, windowsMinimum: u64) {
    var before := BeforeStaging(style, staging);
    var desired := AutomaticWindowsBytes(staging.diskEnd, windowsMinimum);
    && before >= windowsMinimum
    && desired != U64_MAX
    && SaturatingSub(before, desired) < MIN_USEFUL_DATA_BYTES
  }

  /** Windows fills the front and takes over the staging extent, and the tail when that is too small
      for a data volume. */
  function MergedWindowsBytes(style: PartitionStyle, staging: Staging): int {
    BeforeStaging(style, staging) + staging.length
      + if staging.BackLength() < MIN_USEFUL_DATA_BYTES then staging.diskEnd - staging.End() else 0
  }

  /** Windows leaves room for a data volume that takes over the staging extent. */
  function RecipientWindowsBytes(style: PartitionStyle, staging: Staging): int {
    BeforeStaging(style, staging) - STAGING_RECIPIENT_DATA_BYTES
  }

  predicate RecipientFits(style: PartitionStyle, staging: Staging, windowsMinimum: u64) {
    RecipientWindowsBytes(style, staging) >= Max(windowsMinimum, WINDOWS_PREFERRED_FLOOR_BYTES)
  }

  /** The size of the volume at `index` once the cleanup has deleted the staging extent: the volume
      that ends at the extent grows over it, and over the rest of the disk when nothing follows. */
  function AfterCleanup(layout: Layout, index: int, staging: Staging): int
    requires 0 <= index < |layout|
  {
    var p := layout[index];
    if End(p) != staging.offset then p.length
    else p.length + staging.length + if index == |layout| - 1 then staging.diskEnd - staging.End() else 0
  }

  function Distance(a: int, b: int): int {
    if a < b then b - a else a - b
  }

  predicate IsSafe(layout: Layout, staging: Staging) {
    && OrderedDisjoint(layout)
    && Inside(layout, MIB, staging.diskEnd)
    && ClearOf(layout, staging.offset, staging.End())
    && DataVolumesAreUseful(layout)
  }

  /** A recipient layout is only possible on a disk with room for a data volume behind the front. */
  lemma RecipientHasRoom(style: PartitionStyle, staging: Staging, windowsMinimum: u64)
    requires staging.Valid() && FrontIsTight(style, staging, windowsMinimum)
    requires RecipientFits(style, staging, windowsMinimum)
    ensures staging.diskEnd - staging.offset >= MIN_USEFUL_DATA_BYTES
  {
  }

  // ---------------------------------------------------------------------------------------------
  // The plan in bytes
  // ---------------------------------------------------------------------------------------------

  /** What a disk of this capacity must offer around the extent, in bytes: behind the first MiB or behind the
      aligned end of the extent, the boot partitions and the Windows minimum, or the reserved partition and 4 GiB
      of data; the two parts of a data disk may lie on both sides. */
  predicate HasPlace(style: PartitionStyle, role: DiskRole, diskCapacity: u64, offset: u64, length: u64,
                     windowsMinimum: u64)
  {
    var diskEnd := if offset + length > diskCapacity then offset + length else diskCapacity;
    var backStart := (offset + length + 1_048_575) / 1_048_576 * 1_048_576;
    match role
    case WindowsDisk =>
      var boot := if style == Gpt then 448_790_528 else 576_716_800;
      windowsMinimum > 0
      && (1_048_576 + boot + windowsMinimum <= offset || backStart + boot + windowsMinimum <= diskEnd)
    case DataDisk =>
      var reserved := if style == Gpt then 134_217_728 else 0;
      || 1_048_576 + reserved + 4_294_967_296 <= offset
      || backStart + reserved + 4_294_967_296 <= diskEnd
      || (1_048_576 + reserved <= offset && backStart + 4_294_967_296 <= diskEnd)
  }

  lemma PlaceInBytes(style: PartitionStyle, role: DiskRole, diskCapacity: u64, offset: u64, length: u64,
                     windowsMinimum: u64)
    requires offset > 0 && length > 0 && offset + length <= U64_MAX
    ensures HasPlace(style, role, diskCapacity, offset, length, windowsMinimum) <==>
      var staging := StagingOn(diskCapacity, offset, length);
      && (role == WindowsDisk ==> windowsMinimum > 0)
      && (FrontFits(staging, NeededBytes(style, role, windowsMinimum))
          || BackFits(staging, NeededBytes(style, role, windowsMinimum))
          || (role == DataDisk && FrontFits(staging, ReservedBytes(style))
              && BackFits(staging, MIN_USEFUL_DATA_BYTES)))
  {
  }

  /** Safe in bytes: in order and disjoint, behind the first MiB and within the disk, off the extent, and no data
      volume below 4 GiB. */
  predicate KeepsClear(layout: Layout, diskCapacity: u64, offset: u64, length: u64) {
    && OrderedDisjoint(layout)
    && ClearOf(layout, offset, offset + length)
    && Inside(layout, 1_048_576, if offset + length > diskCapacity then offset + length else diskCapacity)
    && forall i :: 0 <= i < |layout| && layout[i].role == Data ==> layout[i].length >= 4_294_967_296
  }

  /** The boot partitions directly in front of the Windows volume `w`. */
  predicate BootsWindows(layout: Layout, w: nat, style: PartitionStyle)
    requires w < |layout|
  {
    match style
    case Gpt =>
      && w >= 2 && layout[w - 2].role == EfiSystem && layout[w - 2].length == 314_572_800
      && layout[w - 1].role == MicrosoftReserved && layout[w - 1].length == 134_217_728
      && End(layout[w - 2]) == layout[w - 1].offset && End(layout[w - 1]) == layout[w].offset
    case Mbr =>
      && w >= 1 && layout[w - 1].role == SystemReserved && layout[w - 1].length == 576_716_800
      && End(layout[w - 1]) == layout[w].offset
  }

  /** The size of the Windows volume `w`, in bytes. Up to 256 GiB of disk Windows takes all the room; below
      1536 GiB it has 200 GiB and from there on 300 GiB, or the minimum when that is more, and the rest of the
      room is data, whenever that leaves 4 GiB. With less room it takes all of it behind the extent; in front of
      it, its size after cleanup is the closer one of two: everything, or all but 4 GiB and 256 MiB, the latter
      only if that leaves Windows the minimum and 64 GiB. */
  predicate HasAutomaticSize(layout: Layout, w: nat, style: PartitionStyle, staging: Staging, windowsMinimum: u64)
    requires w < |layout|
  {
    var boot := if style == Gpt then 448_790_528 else 576_716_800;
    var inFront := 1_048_576 + boot + windowsMinimum <= staging.offset;
    var room := if inFront then staging.offset - 1_048_576 - boot else staging.diskEnd - staging.backStart - boot;
    var usual := if staging.diskEnd < 1_649_267_441_664 then 214_748_364_800 else 322_122_547_200;
    var size := if windowsMinimum > usual then windowsMinimum else usual;
    if staging.diskEnd > 274_877_906_944 && room >= size + 4_294_967_296 then
      && layout[w].length == size
      && w + 2 == |layout| && layout[w + 1].role == Data
      && layout[w + 1].offset == End(layout[w]) && layout[w + 1].length == room - size
    else if staging.diskEnd <= 274_877_906_944 || !inFront then
      layout[w].length == room
    else
      IsCloserOption(AfterCleanup(layout, w, staging), size, room, staging, windowsMinimum)
  }

  predicate IsCloserOption(final: int, size: int, room: int, staging: Staging, windowsMinimum: u64) {
    var merged := room + staging.length
                  + if staging.diskEnd - staging.backStart < 4_294_967_296
                    then staging.diskEnd - staging.offset - staging.length else 0;
    var recipient := room - 4_563_402_752;
    var recipientFits := recipient >= windowsMinimum && recipient >= 68_719_476_736;
    && (final == merged || (recipientFits && final == recipient))
    && Distance(size, final) <= Distance(size, merged)
    && (recipientFits ==> Distance(size, final) <= Distance(size, recipient))
  }

  lemma BootInBytes(layout: Layout, style: PartitionStyle, start: int, usableEnd: int)
    requires Tiles(layout, start, usableEnd) && |layout| > |Infrastructure(style)|
    requires forall i :: 0 <= i < |Infrastructure(style)| ==>
      (layout[i].length, layout[i].role) == Infrastructure(style)[i]
    ensures BootsWindows(layout, |Infrastructure(style)|, style)
  {
  }

  lemma FrontInBytes(layout: Layout, style: PartitionStyle, staging: Staging, windowsMinimum: u64)
    requires staging.Valid() && windowsMinimum > 0
    requires IsFrontLayout(layout, style, staging, windowsMinimum)
    requires FrontIsTight(style, staging, windowsMinimum) ==>
      IsClosest(style, staging, windowsMinimum, AfterCleanup(layout, |Infrastructure(style)|, staging))
    ensures HasAutomaticSize(layout, |Infrastructure(style)|, style, staging, windowsMinimum)
    ensures BootsWindows(layout, |Infrastructure(style)|, style)
  {
    BootInBytes(layout, style, MIB, staging.offset);
    if FrontIsTight(style, staging, windowsMinimum) {
      TightFrontInBytes(layout, style, staging, windowsMinimum, |Infrastructure(style)|);
    } else {
      var desired := AutomaticWindowsBytes(staging.diskEnd, windowsMinimum);
      PlannedWindowsDisk(layout, style, MIB, staging.offset, windowsMinimum, desired,
                         staging.diskEnd - staging.offset);
      RoomyFrontInBytes(layout, style, staging, windowsMinimum, |Infrastructure(style)|);
    }
  }

  lemma ClosestInBytes(style: PartitionStyle, staging: Staging, windowsMinimum: u64, final: int)
    requires staging.Valid() && FrontIsTight(style, staging, windowsMinimum) && windowsMinimum > 0
    ensures IsClosest(style, staging, windowsMinimum, final) <==>
      IsCloserOption(final, AutomaticWindowsBytes(staging.diskEnd, windowsMinimum), BeforeStaging(style, staging),
                     staging, windowsMinimum)
  {
  }

  lemma TightFrontInBytes(layout: Layout, style: PartitionStyle, staging: Staging, windowsMinimum: u64, w: nat)
    requires staging.Valid() && w < |layout| && FrontIsTight(style, staging, windowsMinimum) && windowsMinimum > 0
    requires IsClosest(style, staging, windowsMinimum, AfterCleanup(layout, w, staging))
    ensures HasAutomaticSize(layout, w, style, staging, windowsMinimum)
  {
    ClosestInBytes(style, staging, windowsMinimum, AfterCleanup(layout, w, staging));
  }

  lemma RoomyFrontInBytes(layout: Layout, style: PartitionStyle, staging: Staging, windowsMinimum: u64, w: nat)
    requires staging.Valid() && w < |layout| && windowsMinimum > 0
    requires BeforeStaging(style, staging) >= windowsMinimum && !FrontIsTight(style, staging, windowsMinimum)
    requires var available := BeforeStaging(style, staging);
             var desired := AutomaticWindowsBytes(staging.diskEnd, windowsMinimum);
             if available - desired >= MIN_USEFUL_DATA_BYTES
             then HoldsWindowsAndData(layout, w, desired, available - desired)
                  && layout[w + 1].offset == End(layout[w])
             else layout[w].length == available
    ensures HasAutomaticSize(layout, w, style, staging, windowsMinimum)
  {
  }

  lemma MergedInBytes(layout: Layout, style: PartitionStyle, staging: Staging, windowsMinimum: u64)
    requires staging.Valid() && windowsMinimum > 0 && FrontIsTight(style, staging, windowsMinimum)
    requires IsMergedLayout(layout, style, staging)
    requires IsClosest(style, staging, windowsMinimum, AfterCleanup(layout, |Infrastructure(style)|, staging))
    ensures HasAutomaticSize(layout, |Infrastructure(style)|, style, staging, windowsMinimum)
    ensures BootsWindows(layout, |Infrastructure(style)|, style)
  {
    var boot := |Infrastructure(style)|;
    var front := layout[..boot + 1];
    assert forall i :: 0 <= i <= boot ==> front[i] == layout[i];
    BootInBytes(front, style, MIB, staging.offset);
    TightFrontInBytes(layout, style, staging, windowsMinimum, boot);
  }

  lemma BackInBytes(layout: Layout, style: PartitionStyle, staging: Staging, windowsMinimum: u64)
    requires staging.Valid() && windowsMinimum > 0 && BeforeStaging(style, staging) < windowsMinimum
    requires IsBackLayout(layout, style, staging, windowsMinimum)
    ensures var w := |FrontData(staging)| + |Infrastructure(style)|;
      && OnlyWindowsIs(layout, w)
      && HasAutomaticSize(layout, w, style, staging, windowsMinimum) && BootsWindows(layout, w, style)
  {
    var front := FrontData(staging);
    var back := layout[|front|..];
    BackAloneInBytes(back, style, staging, windowsMinimum);
    BehindFront(front, back, |Infrastructure(style)|, style, staging, windowsMinimum);
    assert layout == front + back;
  }

  lemma BackAloneInBytes(back: Layout, style: PartitionStyle, staging: Staging, windowsMinimum: u64)
    requires staging.Valid() && windowsMinimum > 0 && BeforeStaging(style, staging) < windowsMinimum
    requires Tiles(back, staging.backStart, staging.diskEnd)
    requires WindowsLayoutIs(back, style, staging.backStart, staging.diskEnd, windowsMinimum,
                             AutomaticWindowsBytes(staging.diskEnd, windowsMinimum), 0)
    ensures HasAutomaticSize(back, |Infrastructure(style)|, style, staging, windowsMinimum)
    ensures BootsWindows(back, |Infrastructure(style)|, style)
  {
    PlannedWindowsDisk(back, style, staging.backStart, staging.diskEnd, windowsMinimum,
                       AutomaticWindowsBytes(staging.diskEnd, windowsMinimum), 0);
    BootInBytes(back, style, staging.backStart, staging.diskEnd);
    BackSizeInBytes(back, style, staging, windowsMinimum, |Infrastructure(style)|);
  }

  lemma BackSizeInBytes(back: Layout, style: PartitionStyle, staging: Staging, windowsMinimum: u64, w: nat)
    requires staging.Valid() && w < |back| && windowsMinimum > 0 && BeforeStaging(style, staging) < windowsMinimum
    requires var available := staging.BackLength() - InfrastructureBytes(style);
             var desired := AutomaticWindowsBytes(staging.diskEnd, windowsMinimum);
             if available - desired >= MIN_USEFUL_DATA_BYTES
             then HoldsWindowsAndData(back, w, desired, available - desired) && back[w + 1].offset == End(back[w])
             else back[w].length == available
    ensures HasAutomaticSize(back, w, style, staging, windowsMinimum)
  {
  }

  /** What holds of Windows behind the extent holds with data in front of everything. */
  lemma BehindFront(front: Layout, back: Layout, w: nat, style: PartitionStyle, staging: Staging, windowsMinimum: u64)
    requires w < |back| && OnlyWindowsIs(back, w) && BootsWindows(back, w, style)
    requires BeforeStaging(style, staging) < windowsMinimum
    requires HasAutomaticSize(back, w, style, staging, windowsMinimum)
    requires forall i :: 0 <= i < |front| ==> front[i].role == Data
    ensures OnlyWindowsIs(front + back, |front| + w) && BootsWindows(front + back, |front| + w, style)
    ensures HasAutomaticSize(front + back, |front| + w, style, staging, windowsMinimum)
  {
    var whole := front + back;
    assert forall k :: 0 <= k < |back| ==> whole[|front| + k] == back[k];
    assert |front| + w + 1 < |whole| ==> whole[|front| + w + 1] == back[w + 1];
    assert whole[|front| + w - 1] == back[w - 1];
    assert w >= 2 ==> whole[|front| + w - 2] == back[w - 2];
  }

  /** Boot partitions and Windows come first, except that behind the extent a front of at least 4 GiB is one data
      volume in front of them. */
  predicate UsesFront(layout: Layout, w: nat, style: PartitionStyle, staging: Staging, windowsMinimum: u64)
    requires w < |layout|
  {
    var bootBytes, boot := if style == Gpt then 448_790_528 else 576_716_800, if style == Gpt then 2 else 1;
    if 1_048_576 + bootBytes + windowsMinimum <= staging.offset || staging.offset < 4_296_015_872 then w == boot
    else
      && w == boot + 1 && layout[0].role == Data
      && layout[0].offset == 1_048_576 && layout[0].length == staging.offset - 1_048_576
  }

  lemma FrontDataInBytes(layout: Layout, style: PartitionStyle, staging: Staging, windowsMinimum: u64)
    requires staging.Valid() && BeforeStaging(style, staging) < windowsMinimum
    requires FrontData(staging) <= layout && |FrontData(staging)| + |Infrastructure(style)| < |layout|
    ensures UsesFront(layout, |FrontData(staging)| + |Infrastructure(style)|, style, staging, windowsMinimum)
  {
  }

  /** One Windows volume of at least the minimum and of the automatic size, behind its boot partitions. */
  predicate IsWindowsDiskInBytes(layout: Layout, style: PartitionStyle, staging: Staging, windowsMinimum: u64) {
    exists w :: 0 <= w < |layout| && OnlyWindowsIs(layout, w) && layout[w].length >= windowsMinimum
      && HasAutomaticSize(layout, w, style, staging, windowsMinimum) && BootsWindows(layout, w, style)
      && UsesFront(layout, w, style, staging, windowsMinimum)
  }

  lemma WindowsDiskInBytes(layout: Layout, style: PartitionStyle, staging: Staging, windowsMinimum: u64)
    requires staging.Valid() && windowsMinimum > 0 && IsWindowsDiskLayout(layout, style, staging, windowsMinimum)
    requires exists w :: OnlyWindowsIs(layout, w) && layout[w].length >= windowsMinimum
    requires FrontIsTight(style, staging, windowsMinimum) ==>
      forall w :: OnlyWindowsIs(layout, w) ==>
        IsClosest(style, staging, windowsMinimum, AfterCleanup(layout, w, staging))
    ensures IsWindowsDiskInBytes(layout, style, staging, windowsMinimum)
  {
    if BeforeStaging(style, staging) < windowsMinimum {
      BackInBytes(layout, style, staging, windowsMinimum);
      FrontDataInBytes(layout, style, staging, windowsMinimum);
    } else {
      var boot := |Infrastructure(style)|;
      assert OnlyWindowsIs(layout, boot) by {
        if IsMergedLayout(layout, style, staging) { MergedWindowsIsOnly(layout, style, staging); }
      }
      if IsFrontLayout(layout, style, staging, windowsMinimum) {
        FrontInBytes(layout, style, staging, windowsMinimum);
      } else {
        MergedInBytes(layout, style, staging, windowsMinimum);
      }
    }
  }

  lemma MergedWindowsIsOnly(layout: Layout, style: PartitionStyle, staging: Staging)
    requires staging.Valid() && IsMergedLayout(layout, style, staging)
    ensures OnlyWindowsIs(layout, |Infrastructure(style)|)
  {
    var boot := |Infrastructure(style)|;
    forall i | boot < i < |layout| ensures layout[i].role == Data {
      assert layout[i] == layout[boot + 1..][i - boot - 1];
    }
  }

  method PlanFullDiskAroundStaging(
    style: PartitionStyle,
    role: DiskRole,
    diskCapacity: u64,
    stagingOffset: u64,
    stagingLength: u64,
    windowsMinimum: u64)
    returns (r: Result<Layout, PlanError>)
    ensures stagingOffset == 0 || stagingLength == 0 || stagingOffset + stagingLength > U64_MAX
            <==> r == Failure(InvalidPreservedStaging)
    ensures r != Failure(InvalidPreservedStaging) ==>
      (r.Success? <==> HasPlace(style, role, diskCapacity, stagingOffset, stagingLength, windowsMinimum))
    ensures r.Failure? && r.error != InvalidPreservedStaging ==>
      r.error == if role == WindowsDisk && windowsMinimum == 0 then InvalidWindowsPartitionSize else InvalidDiskCapacity
    ensures r.Success? ==> KeepsClear(r.value, diskCapacity, stagingOffset, stagingLength)
    ensures r.Success? ==>
      var staging := StagingOn(diskCapacity, stagingOffset, stagingLength);
      if role == WindowsDisk then
        && IsWindowsDiskInBytes(r.value, style, staging, windowsMinimum)
        && IsWindowsDiskLayout(r.value, style, staging, windowsMinimum)
      else
        IsDataLayout(r.value, style, staging)
  {
    if stagingOffset == 0 || stagingLength == 0 {
      return Failure(InvalidPreservedStaging);
    }
    if stagingOffset + stagingLength > U64_MAX {
      return Failure(InvalidPreservedStaging);
    }
    var staging := StagingOn(diskCapacity, stagingOffset, stagingLength);
    PlaceInBytes(style, role, diskCapacity, stagingOffset, stagingLength, windowsMinimum);
    match role {
      case DataDisk =>
        r := PlanDataAroundStaging(style, staging);
      case WindowsDisk =>
        r := PlanWindowsAroundStaging(style, staging, windowsMinimum);
        if r.Success? {
          WindowsDiskInBytes(r.value, style, staging, windowsMinimum);
        }
    }
  }

  /** The front as one data volume, when it is a useful one. */
  function FrontData(staging: Staging): Layout
    requires staging.Valid()
  {
    if staging.offset - MIB >= MIN_USEFUL_DATA_BYTES then [Partition(MIB, staging.offset - MIB, Data)] else []
  }

  /** A Windows disk planned wholly in front of the staging extent. */
  predicate IsFrontLayout(layout: Layout, style: PartitionStyle, staging: Staging, windowsMinimum: u64)
    requires staging.Valid()
  {
    && Tiles(layout, MIB, staging.offset)
    && WindowsLayoutIs(layout, style, MIB, staging.offset, windowsMinimum,
                       AutomaticWindowsBytes(staging.diskEnd, windowsMinimum), staging.diskEnd - staging.offset)
  }

  /** The boot partitions and Windows fill the front, and the tail is data when it is a useful volume. */
  predicate IsMergedLayout(layout: Layout, style: PartitionStyle, staging: Staging)
    requires staging.Valid()
  {
    var boot := |Infrastructure(style)|;
    && |layout| > boot && Tiles(layout[..boot + 1], MIB, staging.offset)
    && (forall i :: 0 <= i < boot ==> (layout[i].length, layout[i].role) == Infrastructure(style)[i])
    && layout[boot].role == Windows
    && layout[boot + 1..] == TailData(staging)
  }

  /** What is behind the staging extent as one data volume, when it is a useful one. */
  function TailData(staging: Staging): Layout
    requires staging.Valid()
  {
    if staging.BackLength() < MIN_USEFUL_DATA_BYTES then []
    else [Partition(staging.backStart, staging.BackLength(), Data)]
  }

  /** A Windows disk planned behind the staging extent, the front being data or left alone. */
  predicate IsBackLayout(layout: Layout, style: PartitionStyle, staging: Staging, windowsMinimum: u64)
    requires staging.Valid()
  {
    var front := FrontData(staging);
    && front <= layout
    && Tiles(layout[|front|..], staging.backStart, staging.diskEnd)
    && WindowsLayoutIs(layout[|front|..], style, staging.backStart, staging.diskEnd, windowsMinimum,
                       AutomaticWindowsBytes(staging.diskEnd, windowsMinimum), 0)
  }

  /** Which of the three layouts: behind the extent only when the front cannot hold the minimum, and merged
      only when the front is tight. */
  predicate IsWindowsDiskLayout(layout: Layout, style: PartitionStyle, staging: Staging, windowsMinimum: u64)
    requires staging.Valid()
  {
    if !FrontFits(staging, NeededBytes(style, WindowsDisk, windowsMinimum)) then
      IsBackLayout(layout, style, staging, windowsMinimum)
    else
      || IsFrontLayout(layout, style, staging, windowsMinimum)
      || (FrontIsTight(style, staging, windowsMinimum) && IsMergedLayout(layout, style, staging))
  }

  method PlanWindowsAroundStaging(style: PartitionStyle, staging: Staging, windowsMinimum: u64)
    returns (r: Result<Layout, PlanError>)
    requires staging.Valid()
    ensures r.Failure? ==> r.error == if windowsMinimum == 0 then InvalidWindowsPartitionSize else InvalidDiskCapacity
    ensures r.Success? <==>
      && windowsMinimum > 0
      && (FrontFits(staging, NeededBytes(style, WindowsDisk, windowsMinimum))
          || BackFits(staging, NeededBytes(style, WindowsDisk, windowsMinimum)))
    ensures r.Success? ==>
      && IsSafe(r.value, staging)
      && exists w :: OnlyWindowsIs(r.value, w) && r.value[w].length >= windowsMinimum
    // the layout whose final Windows size is closest to the automatic size
    ensures windowsMinimum > 0 && FrontIsTight(style, staging, windowsMinimum) ==>
      && r.Success?
      && forall w :: OnlyWindowsIs(r.value, w) ==>
           IsClosest(style, staging, windowsMinimum, AfterCleanup(r.value, w, staging))
    ensures r.Success? ==> IsWindowsDiskLayout(r.value, style, staging, windowsMinimum)
  {
    if windowsMinimum == 0 {
      return Failure(InvalidWindowsPartitionSize);
    }
    var desired := AutomaticWindowsBytes(staging.diskEnd, windowsMinimum);
    var before := BeforeStaging(style, staging);
    if before >= windowsMinimum {
      r := PlanFront(style, staging, windowsMinimum, desired, before);
      return;
    }
    r := PlanBack(style, staging, windowsMinimum, desired);
  }

  /** The boot partitions and Windows behind the staging extent. */
  method PlanBack(style: PartitionStyle, staging: Staging, windowsMinimum: u64, desired: u64)
    returns (r: Result<Layout, PlanError>)
    requires staging.Valid() && windowsMinimum > 0
    requires desired == AutomaticWindowsBytes(staging.diskEnd, windowsMinimum)
    ensures r.Failure? ==> r.error == InvalidDiskCapacity
    ensures r.Success? <==> BackFits(staging, NeededBytes(style, WindowsDisk, windowsMinimum))
    ensures r.Success? ==> IsSafe(r.value, staging) && IsBackLayout(r.value, style, staging, windowsMinimum)
    ensures r.Success? ==> exists w :: OnlyWindowsIs(r.value, w) && r.value[w].length >= windowsMinimum
  {
    var back := PlanLayoutFrom(style, WindowsDisk, staging.backStart, staging.diskEnd, windowsMinimum, desired, 0);
    if back.Failure? {
      return back;
    }
    BehindFrontData(style, staging, windowsMinimum, back.value);
    BackLayoutHasWindows(style, staging, windowsMinimum, back.value);
    return Success(FrontData(staging) + back.value);
  }

  lemma BehindFrontData(style: PartitionStyle, staging: Staging, windowsMinimum: u64, back: Layout)
    requires staging.Valid() && DataVolumesAreUseful(back) && Tiles(back, staging.backStart, staging.diskEnd)
    requires WindowsLayoutIs(back, style, staging.backStart, staging.diskEnd, windowsMinimum,
                             AutomaticWindowsBytes(staging.diskEnd, windowsMinimum), 0)
    ensures IsSafe(FrontData(staging) + back, staging)
    ensures IsBackLayout(FrontData(staging) + back, style, staging, windowsMinimum)
  {
    SidesAreSafe(FrontData(staging), back, staging);
    assert (FrontData(staging) + back)[|FrontData(staging)|..] == back;
  }

  lemma BackLayoutHasWindows(style: PartitionStyle, staging: Staging, windowsMinimum: u64, back: Layout)
    requires staging.Valid() && DataVolumesAreUseful(back)
    requires WindowsLayoutIs(back, style, staging.backStart, staging.diskEnd, windowsMinimum,
                             AutomaticWindowsBytes(staging.diskEnd, windowsMinimum), 0)
    ensures var whole := FrontData(staging) + back;
            exists w :: OnlyWindowsIs(whole, w) && whole[w].length >= windowsMinimum
  {
    WindowsMovesBack(FrontData(staging), back, |Infrastructure(style)|);
  }

  /** The final size is one of the two options, and no farther from the automatic size than either. */
  predicate IsClosest(style: PartitionStyle, staging: Staging, windowsMinimum: u64, final: int) {
    var desired := AutomaticWindowsBytes(staging.diskEnd, windowsMinimum);
    var merged, recipient := MergedWindowsBytes(style, staging), RecipientWindowsBytes(style, staging);
    && (final == merged || (final == recipient && RecipientFits(style, staging, windowsMinimum)))
    && Distance(desired, final) <= Distance(desired, merged)
    && (RecipientFits(style, staging, windowsMinimum) ==> Distance(desired, final) <= Distance(desired, recipient))
  }

  lemma WindowsMovesBack(front: Layout, back: Layout, w: int)
    requires OnlyWindowsIs(back, w)
    requires forall i :: 0 <= i < |front| ==> front[i].role == Data && front[i].length >= MIN_USEFUL_DATA_BYTES
    requires DataVolumesAreUseful(back)
    ensures OnlyWindowsIs(front + back, |front| + w) && (front + back)[|front| + w] == back[w]
    ensures DataVolumesAreUseful(front + back)
  {
  }

  /** The boot partitions and Windows in front of the staging extent. */
  method PlanFront(style: PartitionStyle, staging: Staging, windowsMinimum: u64, desired: u64, before: u64)
    returns (r: Result<Layout, PlanError>)
    requires staging.Valid() && windowsMinimum > 0
    requires before == BeforeStaging(style, staging) >= windowsMinimum
    requires desired == AutomaticWindowsBytes(staging.diskEnd, windowsMinimum)
    ensures r.Success? && IsSafe(r.value, staging)
    ensures exists w :: OnlyWindowsIs(r.value, w) && r.value[w].length >= windowsMinimum
    ensures FrontIsTight(style, staging, windowsMinimum) ==>
      forall w :: OnlyWindowsIs(r.value, w) ==>
        IsClosest(style, staging, windowsMinimum, AfterCleanup(r.value, w, staging))
    ensures
      || IsFrontLayout(r.value, style, staging, windowsMinimum)
      || (FrontIsTight(style, staging, windowsMinimum) && IsMergedLayout(r.value, style, staging))
  {
    if desired != U64_MAX && SaturatingSub(before, desired) < MIN_USEFUL_DATA_BYTES
      && PrefersMerge(staging, windowsMinimum, desired, before)
    {
      r := PlanMerged(style, staging, windowsMinimum, before);
      if FrontIsTight(style, staging, windowsMinimum) {
        MergeIsClosest(style, staging, windowsMinimum);
      }
      return;
    }
    r := PlanFrontPlain(style, staging, windowsMinimum, desired, before);
    if FrontIsTight(style, staging, windowsMinimum) { PlainFrontIsClosest(style, staging, windowsMinimum, r.value); }
  }

  /** The base planner in front of the staging extent. */
  method PlanFrontPlain(style: PartitionStyle, staging: Staging, windowsMinimum: u64, desired: u64, before: u64)
    returns (r: Result<Layout, PlanError>)
    requires staging.Valid() && windowsMinimum > 0
    requires before == BeforeStaging(style, staging) >= windowsMinimum
    requires desired == AutomaticWindowsBytes(staging.diskEnd, windowsMinimum)
    ensures r.Success? && IsSafe(r.value, staging) && IsFrontLayout(r.value, style, staging, windowsMinimum)
    ensures exists w :: OnlyWindowsIs(r.value, w) && r.value[w].length >= windowsMinimum
  {
    r := PlanLayoutFrom(style, WindowsDisk, MIB, staging.offset, windowsMinimum, desired,
                        staging.diskEnd - staging.offset);
    TilingIsSafe(r.value, staging);
    assert OnlyWindowsIs(r.value, |Infrastructure(style)|);
  }

  lemma PlainFrontIsClosest(style: PartitionStyle, staging: Staging, windowsMinimum: u64, layout: Layout)
    requires staging.Valid() && FrontIsTight(style, staging, windowsMinimum)
    requires IsFrontLayout(layout, style, staging, windowsMinimum)
    requires !PrefersMerge(staging, windowsMinimum, AutomaticWindowsBytes(staging.diskEnd, windowsMinimum),
                           BeforeStaging(style, staging))
    ensures forall w :: OnlyWindowsIs(layout, w) ==>
      IsClosest(style, staging, windowsMinimum, AfterCleanup(layout, w, staging))
  {
    RecipientIsClosest(style, staging, windowsMinimum);
    var w := |Infrastructure(style)|;
    assert layout[w].length == RecipientWindowsBytes(style, staging);
    assert AfterCleanup(layout, w, staging) == RecipientWindowsBytes(style, staging);
  }

  /** Whether filling the front comes at least as close to the desired size as leaving a recipient. */
  predicate PrefersMerge(staging: Staging, windowsMinimum: u64, desired: u64, before: u64)
    requires staging.Valid()
  {
    var tailJoinsWindows := staging.BackLength() < MIN_USEFUL_DATA_BYTES;
    var merged := SaturatingAdd(SaturatingAdd(before, staging.length),
                                if tailJoinsWindows then SaturatingSub(staging.diskEnd, staging.End()) else 0);
    var recipientFits :=
      && before >= STAGING_RECIPIENT_DATA_BYTES
      && before - STAGING_RECIPIENT_DATA_BYTES >= Max(windowsMinimum, WINDOWS_PREFERRED_FLOOR_BYTES);
    recipientFits ==> AbsDiff(desired, merged) <= AbsDiff(desired, before - STAGING_RECIPIENT_DATA_BYTES)
  }

  lemma MergeIsClosest(style: PartitionStyle, staging: Staging, windowsMinimum: u64)
    requires staging.Valid() && FrontIsTight(style, staging, windowsMinimum)
    requires PrefersMerge(staging, windowsMinimum, AutomaticWindowsBytes(staging.diskEnd, windowsMinimum),
                          BeforeStaging(style, staging))
    ensures IsClosest(style, staging, windowsMinimum, MergedWindowsBytes(style, staging))
  {
  }

  lemma RecipientIsClosest(style: PartitionStyle, staging: Staging, windowsMinimum: u64)
    requires staging.Valid() && FrontIsTight(style, staging, windowsMinimum)
    requires !PrefersMerge(staging, windowsMinimum, AutomaticWindowsBytes(staging.diskEnd, windowsMinimum),
                           BeforeStaging(style, staging))
    ensures IsClosest(style, staging, windowsMinimum, RecipientWindowsBytes(style, staging))
    ensures WindowsBytes(BeforeStaging(style, staging), windowsMinimum,
                         AutomaticWindowsBytes(staging.diskEnd, windowsMinimum), staging.diskEnd - staging.offset)
            == RecipientWindowsBytes(style, staging)
  {
    RecipientSize(style, staging, windowsMinimum);
  }

  /** The base planner builds the recipient layout whenever it is possible. */
  lemma RecipientSize(style: PartitionStyle, staging: Staging, windowsMinimum: u64)
    requires staging.Valid() && FrontIsTight(style, staging, windowsMinimum)
    requires RecipientFits(style, staging, windowsMinimum)
    ensures WindowsBytes(BeforeStaging(style, staging), windowsMinimum,
                         AutomaticWindowsBytes(staging.diskEnd, windowsMinimum), staging.diskEnd - staging.offset)
            == RecipientWindowsBytes(style, staging)
  {
    RecipientHasRoom(style, staging, windowsMinimum);
  }

  lemma TilingIsSafe(layout: Layout, staging: Staging)
    requires staging.Valid() && Tiles(layout, MIB, staging.offset) && DataVolumesAreUseful(layout)
    ensures IsSafe(layout, staging)
  {
    TilingIsOrderedDisjoint(layout, MIB, staging.offset);
  }

  /** Windows fills the front; a data volume is created behind the staging extent when one fits. */
  method PlanMerged(style: PartitionStyle, staging: Staging, windowsMinimum: u64, before: u64)
    returns (r: Result<Layout, PlanError>)
    requires staging.Valid() && windowsMinimum > 0
    requires before == BeforeStaging(style, staging) >= windowsMinimum
    ensures r.Success? && IsSafe(r.value, staging)
    ensures exists w :: OnlyWindowsIs(r.value, w) && r.value[w].length >= windowsMinimum
    ensures forall w :: OnlyWindowsIs(r.value, w) ==>
      AfterCleanup(r.value, w, staging) == MergedWindowsBytes(style, staging)
    ensures IsMergedLayout(r.value, style, staging)
  {
    var front := PlanLayoutFrom(style, WindowsDisk, MIB, staging.offset, windowsMinimum, U64_MAX, 0);
    WholeFront(style, staging, windowsMinimum, front.value);
    return Success(front.value + TailData(staging));
  }

  /** Windows that takes all of the front is the last partition there. */
  lemma WholeFront(style: PartitionStyle, staging: Staging, windowsMinimum: u64, front: Layout)
    requires staging.Valid() && Tiles(front, MIB, staging.offset) && DataVolumesAreUseful(front)
    requires WindowsLayoutIs(front, style, MIB, staging.offset, windowsMinimum, U64_MAX, 0)
    ensures var layout := front + TailData(staging);
      && IsSafe(layout, staging) && IsMergedLayout(layout, style, staging)
      && OnlyWindowsIs(layout, |Infrastructure(style)|) && layout[|Infrastructure(style)|].length >= windowsMinimum
      && AfterCleanup(layout, |Infrastructure(style)|, staging) == MergedWindowsBytes(style, staging)
  {
    var w := |Infrastructure(style)|;
    WindowsIsLast(style, staging, windowsMinimum, front);
    WithTailIsSafe(staging, front);
    MergedSize(style, staging, front, TailData(staging), w);
    assert (front + TailData(staging))[..w + 1] == front;
    assert (front + TailData(staging))[w + 1..] == TailData(staging);
  }

  lemma WithTailIsSafe(staging: Staging, front: Layout)
    requires staging.Valid() && Tiles(front, MIB, staging.offset) && DataVolumesAreUseful(front)
    ensures IsSafe(front + TailData(staging), staging)
  {
    TilingIsOrderedDisjoint(front, MIB, staging.offset);
    TwoSides(front, TailData(staging), MIB, staging.offset, staging.backStart, staging.diskEnd);
  }

  lemma WindowsIsLast(style: PartitionStyle, staging: Staging, windowsMinimum: u64, front: Layout)
    requires staging.Valid() && Tiles(front, MIB, staging.offset)
    requires WindowsLayoutIs(front, style, MIB, staging.offset, windowsMinimum, U64_MAX, 0)
    ensures |front| == |Infrastructure(style)| + 1
    ensures End(front[|Infrastructure(style)|]) == staging.offset
  {
  }

  lemma MergedSize(style: PartitionStyle, staging: Staging, front: Layout, back: Layout, w: nat)
    requires staging.Valid()
    requires |front| == w + 1 && OnlyWindowsIs(front, w)
    requires End(front[w]) == staging.offset && front[w].length == BeforeStaging(style, staging)
    requires if staging.BackLength() >= MIN_USEFUL_DATA_BYTES then |back| == 1 && back[0].role == Data else back == []
    ensures OnlyWindowsIs(front + back, w) && (front + back)[w] == front[w]
    ensures AfterCleanup(front + back, w, staging) == MergedWindowsBytes(style, staging)
  {
  }

  /** A data disk around the staging extent: the front when it holds a data volume, and otherwise the rest
      of the disk behind the extent, with the reserved partition in front of it when it fits there. */
  predicate IsDataLayout(layout: Layout, style: PartitionStyle, staging: Staging)
    requires staging.Valid()
  {
    && |layout| == (if style == Gpt then 2 else 1) && layout[|layout| - 1].role == Data
    && (forall i :: 0 <= i < |layout| - 1 ==>
        layout[i].role == MicrosoftReserved && layout[i].length == ReservedBytes(style))
    && if FrontFits(staging, NeededBytes(style, DataDisk, 0)) then Tiles(layout, MIB, staging.offset)
       else
         var behind := if FrontFits(staging, ReservedBytes(style)) then 0 else ReservedBytes(style);
         && layout[|layout| - 1].offset == staging.backStart + behind
         && End(layout[|layout| - 1]) == staging.diskEnd
  }

  method PlanDataAroundStaging(style: PartitionStyle, staging: Staging) returns (r: Result<Layout, PlanError>)
    requires staging.Valid()
    ensures r.Failure? ==> r.error == InvalidDiskCapacity
    ensures r.Success? <==>
      || FrontFits(staging, NeededBytes(style, DataDisk, 0))
      || BackFits(staging, NeededBytes(style, DataDisk, 0))
      || (FrontFits(staging, ReservedBytes(style)) && BackFits(staging, MIN_USEFUL_DATA_BYTES))
    ensures r.Success? ==> IsSafe(r.value, staging) && IsDataLayout(r.value, style, staging)
  {
    var msr := ReservedBytes(style);
    if staging.offset - MIB - msr >= MIN_USEFUL_DATA_BYTES {
      r := PlanLayoutFrom(style, DataDisk, MIB, staging.offset, 0, U64_MAX, 0);
      TilingIsSafe(r.value, staging);
      return;
    }
    r := PlanDataBehind(style, staging);
  }

  /** The rest of the disk behind the staging extent, when the front holds no data volume. */
  method PlanDataBehind(style: PartitionStyle, staging: Staging) returns (r: Result<Layout, PlanError>)
    requires staging.Valid() && !FrontFits(staging, NeededBytes(style, DataDisk, 0))
    ensures r.Failure? ==> r.error == InvalidDiskCapacity
    ensures r.Success? <==>
      || BackFits(staging, NeededBytes(style, DataDisk, 0))
      || (FrontFits(staging, ReservedBytes(style)) && BackFits(staging, MIN_USEFUL_DATA_BYTES))
    ensures r.Success? ==> IsSafe(r.value, staging) && IsDataLayout(r.value, style, staging)
  {
    var msr := ReservedBytes(style);
    var front: Layout := [];
    var behind := 0;
    if msr != 0 {
      if MIB + msr <= staging.offset {
        front := [Partition(MIB, msr, MicrosoftReserved)];
        TilesExtends([], MIB, MIB, front[0]);
      } else {
        behind := msr;
      }
    }
    if staging.backStart + behind > U64_MAX || staging.diskEnd - staging.backStart - behind < MIN_USEFUL_DATA_BYTES {
      return Failure(InvalidDiskCapacity);
    }
    var back := DataBehind(staging, behind);
    SidesAreSafe(front, back, staging);
    return Success(front + back);
  }

  /** The rest of the disk behind the staging extent as data, after `reserved` bytes. */
  function DataBehind(staging: Staging, reserved: u64): (layout: Layout)
    requires staging.Valid() && staging.diskEnd - staging.backStart - reserved >= MIN_USEFUL_DATA_BYTES
    ensures Tiles(layout, staging.backStart, staging.diskEnd) && DataVolumesAreUseful(layout)
  {
    var cursor := staging.backStart + reserved;
    (if reserved > 0 then [Partition(staging.backStart, reserved, MicrosoftReserved)] else [])
      + [Partition(cursor, staging.diskEnd - cursor, Data)]
  }

  /** A tiling that begins at the first MiB and stays in front, and one that fills the back. */
  lemma SidesAreSafe(front: Layout, back: Layout, staging: Staging)
    requires staging.Valid() && DataVolumesAreUseful(front) && DataVolumesAreUseful(back)
    requires front != [] ==> Tiles(front, MIB, End(front[|front| - 1])) && End(front[|front| - 1]) <= staging.offset
    requires Tiles(back, staging.backStart, staging.diskEnd) && MIB <= staging.backStart
    ensures IsSafe(front + back, staging)
  {
    if front != [] { TilingIsOrderedDisjoint(front, MIB, End(front[|front| - 1])); }
    TilingIsOrderedDisjoint(back, staging.backStart, staging.diskEnd);
    TwoSides(front, back, MIB, Max(MIB, staging.offset), staging.backStart, staging.diskEnd);
  }
}
