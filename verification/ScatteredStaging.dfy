/** The scattered-staging planner: one image and its companions spread over several existing volumes.
    Vectors are sequences; every saturating and checked operation on u64 is written out. */
module ScatteredStaging {
  import opened Wrappers
  import opened MachineIntegers
  import opened ScatterVolumes

  const PRIMARY_RESERVE_BYTES: u64 := 2 * GIB
  const SECONDARY_RESERVE_BYTES: u64 := 512 * MIB

  datatype Demand =
    | SingleFile(bytes: u64, chunkable: bool)
    | IndependentFiles(files: seq<u64>)
    | TogetherFiles(files: seq<u64>)
    | PrimaryTree(bytes: u64)

  datatype Request = Request(image: Demand, primaryFixedBytes: u64, flexibleBytes: u64)

  datatype Placement = Whole(letter: char) | PerFile(letters: seq<char>) | Chunked

  datatype ScatterPlan = ScatterPlan(primary: char, image: Placement, reservations: seq<(char, u64)>)

  datatype ScatterError =
    | NoVolume
    | SizeOverflow
    | PrimaryTooLarge
    | ImageTooLarge
    | PartTooLarge(part: nat)
    | FlexibleTooLarge

  /** What is left on a volume for images. */
  datatype Capacity = Capacity(letter: char, usable: u64, maxFileBytes: u64)

  // ---------------------------------------------------------------------------------------------
  // Capacities
  // ---------------------------------------------------------------------------------------------

  function ReserveBytes(isPrimary: bool): u64 {
    if isPrimary then PRIMARY_RESERVE_BYTES else SECONDARY_RESERVE_BYTES
  }

  function Usable(v: Volume, primary: char, primaryNeeds: u64): u64 {
    var isPrimary := v.letter == primary;
    SaturatingSub(SaturatingSub(v.freeBytes, ReserveBytes(isPrimary)), if isPrimary then primaryNeeds else 0)
  }

  function Capacities(vs: seq<Volume>, primary: char, primaryNeeds: u64): (cs: seq<Capacity>)
    ensures |cs| == |vs|
    ensures forall i :: 0 <= i < |vs| ==>
      cs[i] == Capacity(vs[i].letter, Usable(vs[i], primary, primaryNeeds), vs[i].maxFileBytes)
  {
    seq(|vs|, i requires 0 <= i < |vs| =>
      Capacity(vs[i].letter, Usable(vs[i], primary, primaryNeeds), vs[i].maxFileBytes))
  }

  predicate DistinctCapacities(cs: seq<Capacity>) {
    forall i, j :: 0 <= i < j < |cs| ==> cs[i].letter != cs[j].letter
  }

  function TotalUsable(cs: seq<Capacity>): nat {
    if cs == [] then 0 else TotalUsable(cs[..|cs| - 1]) + cs[|cs| - 1].usable
  }

  /** The saturating fold of the original. */
  function SaturatingTotal(cs: seq<Capacity>): u64 {
    if cs == [] then 0 else SaturatingAdd(SaturatingTotal(cs[..|cs| - 1]), cs[|cs| - 1].usable)
  }

  lemma {:induction false} SaturatingTotalIs(cs: seq<Capacity>)
    ensures SaturatingTotal(cs) == Min(TotalUsable(cs), U64_MAX)
  {
    if cs != [] { SaturatingTotalIs(cs[..|cs| - 1]); }
  }

  lemma {:induction false} TotalAfterUpdate(cs: seq<Capacity>, i: nat, c: Capacity)
    requires i < |cs|
    ensures TotalUsable(cs[i := c]) == TotalUsable(cs) - cs[i].usable + c.usable
  {
    var n := |cs| - 1;
    if i < n {
      TotalAfterUpdate(cs[..n], i, c);
      assert cs[i := c][..n] == cs[..n][i := c];
    } else {
      assert cs[i := c][..n] == cs[..n];
    }
  }

  lemma {:induction false} TotalIsAtLeast(cs: seq<Capacity>, i: nat)
    requires i < |cs|
    ensures cs[i].usable <= TotalUsable(cs)
  {
    if i < |cs| - 1 { TotalIsAtLeast(cs[..|cs| - 1], i); }
  }

  lemma {:induction false} TotalIsAtMost(cs: seq<Capacity>, bound: nat)
    requires forall i :: 0 <= i < |cs| ==> cs[i].usable <= bound
    ensures TotalUsable(cs) <= |cs| * bound
  {
    if cs != [] {
      TotalIsAtMost(cs[..|cs| - 1], bound);
      assert |cs| * bound == (|cs| - 1) * bound + bound;
    }
  }

  predicate Holds(c: Capacity, total: u64, largestFile: u64) {
    c.usable >= total && c.maxFileBytes >= largestFile
  }

  /** The fitting volume with the least usable space, then the earliest letter. */
  function BestFit(cs: seq<Capacity>, total: u64, largestFile: u64): (r: Option<nat>)
    ensures r.None? <==> forall i :: 0 <= i < |cs| ==> !Holds(cs[i], total, largestFile)
    ensures r.Some? ==> r.value < |cs| && Holds(cs[r.value], total, largestFile)
    ensures r.Some? ==> forall i :: 0 <= i < |cs| && Holds(cs[i], total, largestFile) ==>
      cs[r.value].usable < cs[i].usable || (cs[r.value].usable == cs[i].usable && cs[r.value].letter <= cs[i].letter)
  {
    if cs == [] then None
    else
      var n := |cs| - 1;
      var best := BestFit(cs[..n], total, largestFile);
      if !Holds(cs[n], total, largestFile) then best
      else if best.Some? && (cs[best.value].usable < cs[n].usable
                             || (cs[best.value].usable == cs[n].usable
                                 && cs[best.value].letter <= cs[n].letter)) then best
      else Some(n)
  }

  /** The fitting volume with the most usable space, then the earliest letter. */
  function WorstFit(cs: seq<Capacity>, size: u64): (r: Option<nat>)
    ensures r.None? <==> forall i :: 0 <= i < |cs| ==> !Holds(cs[i], size, size)
    ensures r.Some? ==> r.value < |cs| && Holds(cs[r.value], size, size)
    ensures r.Some? ==> forall i :: 0 <= i < |cs| && Holds(cs[i], size, size) ==>
      cs[i].usable < cs[r.value].usable || (cs[i].usable == cs[r.value].usable && cs[r.value].letter <= cs[i].letter)
  {
    if cs == [] then None
    else
      var n := |cs| - 1;
      var best := WorstFit(cs[..n], size);
      if !Holds(cs[n], size, size) then best
      else if best.Some? && (cs[best.value].usable > cs[n].usable
                             || (cs[best.value].usable == cs[n].usable
                                 && cs[best.value].letter < cs[n].letter)) then best
      else Some(n)
  }

  /** Take bytes from the first volume with that letter. */
  function Take(cs: seq<Capacity>, letter: char, bytes: u64): (r: seq<Capacity>) {
    if cs == [] then []
    else if cs[0].letter == letter then [cs[0].(usable := SaturatingSub(cs[0].usable, bytes))] + cs[1..]
    else [cs[0]] + Take(cs[1..], letter, bytes)
  }

  lemma {:induction false} TakeAt(cs: seq<Capacity>, i: nat, bytes: u64)
    requires DistinctCapacities(cs) && i < |cs| && bytes <= cs[i].usable
    ensures Take(cs, cs[i].letter, bytes) == cs[i := cs[i].(usable := cs[i].usable - bytes)]
    ensures TotalUsable(Take(cs, cs[i].letter, bytes)) == TotalUsable(cs) - bytes
  {
    TotalAfterUpdate(cs, i, cs[i].(usable := cs[i].usable - bytes));
    if i > 0 {
      TakeAt(cs[1..], i - 1, bytes);
      assert cs[0].letter != cs[i].letter;
    }
  }

  // ---------------------------------------------------------------------------------------------
  // Sizes of file sets
  // ---------------------------------------------------------------------------------------------

  function Bytes(files: seq<u64>): nat {
    if files == [] then 0 else Bytes(files[..|files| - 1]) + files[|files| - 1]
  }

  /** The checked fold of the original. */
  function CheckedBytes(files: seq<u64>): Option<u64> {
    if files == [] then Some(0)
    else
      var before :- CheckedBytes(files[..|files| - 1]);
      if before + files[|files| - 1] > U64_MAX then None else Some(before + files[|files| - 1])
  }

  lemma {:induction false} CheckedBytesIs(files: seq<u64>)
    ensures CheckedBytes(files) == if Bytes(files) <= U64_MAX then Some(Bytes(files)) else None
  {
    if files != [] { CheckedBytesIs(files[..|files| - 1]); }
  }

  function Largest(files: seq<u64>): (largest: u64)
    ensures forall i :: 0 <= i < |files| ==> files[i] <= largest
    ensures files == [] ==> largest == 0
  {
    if files == [] then 0
    else
      var before := Largest(files[..|files| - 1]);
      if before > files[|files| - 1] then before else files[|files| - 1]
  }

  lemma {:induction false} LargestIsOneOf(files: seq<u64>)
    ensures files != [] ==> Largest(files) in files
  {
    if files != [] {
      var n := |files| - 1;
      LargestIsOneOf(files[..n]);
      if Largest(files) != files[n] { assert Largest(files) in files[..n]; }
    }
  }

  /** The bytes of the selected files. */
  function Masked(files: seq<u64>, mask: seq<bool>): nat
    requires |files| == |mask|
  {
    if files == [] then 0
    else
      var n := |files| - 1;
      Masked(files[..n], mask[..n]) + if mask[n] then files[n] else 0
  }

  lemma {:induction false} MaskedSet(files: seq<u64>, mask: seq<bool>, i: nat)
    requires |files| == |mask| && i < |mask| && !mask[i]
    ensures Masked(files, mask[i := true]) == Masked(files, mask) + files[i]
  {
    var n := |files| - 1;
    if i < n {
      MaskedSet(files[..n], mask[..n], i);
      assert mask[i := true][..n] == mask[..n][i := true];
    } else {
      assert mask[i := true][..n] == mask[..n];
    }
  }

  lemma {:induction false} MaskedAtMost(files: seq<u64>, mask: seq<bool>)
    requires |files| == |mask|
    ensures Masked(files, mask) <= Bytes(files)
    ensures (forall i :: 0 <= i < |mask| ==> mask[i]) ==> Masked(files, mask) == Bytes(files)
    ensures (forall i :: 0 <= i < |mask| ==> !mask[i]) ==> Masked(files, mask) == 0
  {
    if files != [] { MaskedAtMost(files[..|files| - 1], mask[..|files| - 1]); }
  }

  // ---------------------------------------------------------------------------------------------
  // Reservations
  // ---------------------------------------------------------------------------------------------

  /** Add to the first reservation for that letter, or open one. */
  function Reserve(reserved: seq<(char, u64)>, letter: char, bytes: u64): seq<(char, u64)> {
    if reserved == [] then [(letter, bytes)]
    else if reserved[0].0 == letter then [(letter, SaturatingAdd(reserved[0].1, bytes))] + reserved[1..]
    else [reserved[0]] + Reserve(reserved[1..], letter, bytes)
  }

  /** All bytes reserved under a letter. */
  function ReservedFor(reserved: seq<(char, u64)>, letter: char): nat {
    if reserved == [] then 0
    else (if reserved[0].0 == letter then reserved[0].1 else 0) + ReservedFor(reserved[1..], letter)
  }

  lemma {:induction false} ReserveAdds(reserved: seq<(char, u64)>, letter: char, bytes: u64, l: char)
    requires ReservedFor(reserved, letter) + bytes <= U64_MAX
    ensures ReservedFor(Reserve(reserved, letter, bytes), l)
            == ReservedFor(reserved, l) + if l == letter then bytes else 0
  {
    if reserved != [] && reserved[0].0 != letter { ReserveAdds(reserved[1..], letter, bytes, l); }
  }

  // ---------------------------------------------------------------------------------------------
  // Chunked images: the largest volumes first
  // ---------------------------------------------------------------------------------------------

  function Usables(cs: seq<Capacity>): (keys: seq<u64>)
    ensures |keys| == |cs|
  {
    seq(|cs|, i requires 0 <= i < |cs| => cs[i].usable)
  }

  /** Capacities and bytes still to place after the first `k` volumes of the order. */
  function ConsumeUpTo(cs: seq<Capacity>, order: seq<nat>, bytes: u64, k: nat): (r: (seq<Capacity>, u64))
    requires k <= |order| && Below(order, |cs|)
    ensures |r.0| == |cs|
  {
    if k == 0 then (cs, bytes)
    else
      var (left, remaining) := ConsumeUpTo(cs, order, bytes, k - 1);
      var i := order[k - 1];
      var used := Min(remaining, left[i].usable);
      (left[i := left[i].(usable := left[i].usable - used)], remaining - used)
  }

  function Consumed(cs: seq<Capacity>, bytes: u64): seq<Capacity> {
    ConsumeUpTo(cs, DescendingOrder(Usables(cs), |cs|), bytes, |cs|).0
  }

  /** Every byte placed is taken from some volume. */
  lemma {:induction false} ConsumeConserves(cs: seq<Capacity>, order: seq<nat>, bytes: u64, k: nat)
    requires k <= |order| && Below(order, |cs|)
    ensures var r := ConsumeUpTo(cs, order, bytes, k);
      && TotalUsable(r.0) + bytes == TotalUsable(cs) + r.1
      && (forall i :: 0 <= i < |cs| ==> r.0[i].letter == cs[i].letter && r.0[i].usable <= cs[i].usable)
  {
    if k > 0 {
      ConsumeConserves(cs, order, bytes, k - 1);
      var (left, remaining) := ConsumeUpTo(cs, order, bytes, k - 1);
      var i := order[k - 1];
      TotalAfterUpdate(left, i, left[i].(usable := left[i].usable - Min(remaining, left[i].usable)));
    }
  }

  lemma {:induction false} RestBehindEmptyVolumes(cs: seq<Capacity>, order: seq<nat>, bytes: u64, k: nat)
    requires k <= |order| && Below(order, |cs|)
    ensures var r := ConsumeUpTo(cs, order, bytes, k);
      r.1 > 0 ==> forall i :: 0 <= i < k ==> r.0[order[i]].usable == 0
  {
    if k > 0 { RestBehindEmptyVolumes(cs, order, bytes, k - 1); }
  }

  lemma {:induction false} DoneStaysDone(cs: seq<Capacity>, order: seq<nat>, bytes: u64, k: nat, n: nat)
    requires k <= n <= |order| && Below(order, |cs|)
    requires ConsumeUpTo(cs, order, bytes, k).1 == 0
    ensures ConsumeUpTo(cs, order, bytes, n) == ConsumeUpTo(cs, order, bytes, k)
  {
    if k < n {
      DoneStaysDone(cs, order, bytes, k, n - 1);
      var left := ConsumeUpTo(cs, order, bytes, n - 1).0;
      assert left[order[n - 1] := left[order[n - 1]]] == left;
    }
  }

  lemma ConsumedIsExact(cs: seq<Capacity>, bytes: u64)
    requires bytes <= TotalUsable(cs)
    ensures |Consumed(cs, bytes)| == |cs|
    ensures TotalUsable(Consumed(cs, bytes)) == TotalUsable(cs) - bytes
  {
    var order := DescendingOrder(Usables(cs), |cs|);
    ConsumeConserves(cs, order, bytes, |cs|);
    RestBehindEmptyVolumes(cs, order, bytes, |cs|);
    DescendingOrderIsOrder(Usables(cs), |cs|);
    var (left, remaining) := ConsumeUpTo(cs, order, bytes, |cs|);
    if remaining > 0 {
      forall i | 0 <= i < |left| ensures left[i].usable <= 0 { assert i in order; }
      TotalIsAtMost(left, 0);
    }
  }

  /** Chunks use up the largest volumes first. */
  method ConsumeLargestFirst(cs: seq<Capacity>, bytes: u64) returns (left: seq<Capacity>)
    ensures left == Consumed(cs, bytes)
  {
    left := cs;
    var remaining: u64 := bytes;
    var order := DescendingOrder(Usables(cs), |cs|);
    for k := 0 to |order|
      invariant (left, remaining) == ConsumeUpTo(cs, order, bytes, k)
    {
      var i := order[k];
      var used := Min(remaining, left[i].usable);
      left := left[i := left[i].(usable := left[i].usable - used)];
      remaining := remaining - used;
      if remaining == 0 {
        DoneStaysDone(cs, order, bytes, k + 1, |order|);
        return;
      }
    }
  }

  // ---------------------------------------------------------------------------------------------
  // Independent parts: the largest part first, each on the volume with the most room
  // ---------------------------------------------------------------------------------------------

  datatype Assignment = Assignment(left: seq<Capacity>, letters: seq<char>, reserved: seq<(char, u64)>)

  function AssignPart(files: seq<u64>, a: Assignment, i: nat): (r: Result<Assignment, ScatterError>)
    requires i < |files| == |a.letters|
    ensures r.Success? ==> |r.value.letters| == |files|
  {
    match WorstFit(a.left, files[i])
    case None => Failure(PartTooLarge(i + 1))
    case Some(w) =>
      var letter := a.left[w].letter;
      Success(Assignment(Take(a.left, letter, files[i]), a.letters[i := letter], Reserve(a.reserved, letter, files[i])))
  }

  /** Place the parts from position `k` of the order on. */
  function AssignFrom(files: seq<u64>, order: seq<nat>, a: Assignment, k: nat): (r: Result<Assignment, ScatterError>)
    requires k <= |order| && Below(order, |files|) && |a.letters| == |files|
    ensures r.Success? ==> |r.value.letters| == |files|
    decreases |order| - k
  {
    if k == |order| then Success(a)
    else
      var next :- AssignPart(files, a, order[k]);
      AssignFrom(files, order, next, k + 1)
  }

  function Unassigned(cs: seq<Capacity>, primary: char, files: seq<u64>): (a: Assignment)
    ensures |a.letters| == |files|
  {
    Assignment(cs, seq(|files|, _ => primary), [])
  }

  function Assigned(cs: seq<Capacity>, primary: char, files: seq<u64>): (r: Result<Assignment, ScatterError>)
    ensures r.Success? ==> |r.value.letters| == |files|
  {
    AssignFrom(files, DescendingOrder(files, |files|), Unassigned(cs, primary, files), 0)
  }

  method AssignParts(cs: seq<Capacity>, primary: char, files: seq<u64>) returns (r: Result<Assignment, ScatterError>)
    ensures r == Assigned(cs, primary, files)
  {
    var order := DescendingOrder(files, |files|);
    var left, letters, reserved := cs, seq(|files|, _ => primary), [];
    for k := 0 to |order|
      invariant |letters| == |files|
      invariant AssignFrom(files, order, Assignment(left, letters, reserved), k) == Assigned(cs, primary, files)
    {
      var size := files[order[k]];
      var fit := WorstFit(left, size);
      if fit.None? { return Failure(PartTooLarge(order[k] + 1)); }
      var letter := left[fit.value].letter;
      left := Take(left, letter, size);
      letters := letters[order[k] := letter];
      reserved := Reserve(reserved, letter, size);
    }
    r := Success(Assignment(left, letters, reserved));
  }

  /** The bytes of the parts already placed on one volume. */
  function PlacedMask(letters: seq<char>, done: seq<bool>, l: char): (mask: seq<bool>)
    requires |letters| == |done|
    ensures |mask| == |done| && forall j :: 0 <= j < |done| ==> mask[j] == (done[j] && letters[j] == l)
  {
    seq(|done|, j requires 0 <= j < |done| => done[j] && letters[j] == l)
  }

  function PlacedBytes(files: seq<u64>, letters: seq<char>, done: seq<bool>, l: char): nat
    requires |files| == |letters| == |done|
  {
    Masked(files, PlacedMask(letters, done, l))
  }

  lemma PlacedStep(files: seq<u64>, letters: seq<char>, done: seq<bool>, i: nat, letter: char, l: char)
    requires |files| == |letters| == |done| && i < |files| && !done[i]
    ensures PlacedBytes(files, letters[i := letter], done[i := true], l)
         == PlacedBytes(files, letters, done, l) + if l == letter then files[i] else 0
  {
    var before := PlacedMask(letters, done, l);
    if l == letter {
      MaskedSet(files, before, i);
      assert PlacedMask(letters[i := letter], done[i := true], l) == before[i := true];
    } else {
      assert PlacedMask(letters[i := letter], done[i := true], l) == before;
    }
  }

  /** Room used up on each volume is what the placed parts take. */
  predicate SpaceBalanced(cs: seq<Capacity>, files: seq<u64>, a: Assignment, done: seq<bool>) {
    && |files| == |a.letters| == |done| && |a.left| == |cs|
    && (forall i :: 0 <= i < |cs| ==>
          && a.left[i].letter == cs[i].letter && a.left[i].maxFileBytes == cs[i].maxFileBytes
          && a.left[i].usable + PlacedBytes(files, a.letters, done, cs[i].letter) == cs[i].usable)
    && TotalUsable(a.left) + Masked(files, done) == TotalUsable(cs)
  }

  /** Every placed part is on a volume that can store a file of its size. */
  predicate FilesStorable(cs: seq<Capacity>, files: seq<u64>, letters: seq<char>, done: seq<bool>)
    requires |files| == |letters| == |done|
  {
    forall j :: 0 <= j < |files| && done[j] ==>
      exists i :: 0 <= i < |cs| && cs[i].letter == letters[j] && files[j] <= cs[i].maxFileBytes
  }

  /** What is reserved under a letter is what is placed there. */
  ghost predicate ReservationsExact(files: seq<u64>, a: Assignment, done: seq<bool>)
    requires |files| == |a.letters| == |done|
  {
    forall l :: ReservedFor(a.reserved, l) == PlacedBytes(files, a.letters, done, l)
  }

  lemma PartKeepsBalance(cs: seq<Capacity>, files: seq<u64>, a: Assignment, done: seq<bool>, i: nat)
    requires DistinctCapacities(cs) && SpaceBalanced(cs, files, a, done)
    requires i < |files| && !done[i] && AssignPart(files, a, i).Success?
    ensures SpaceBalanced(cs, files, AssignPart(files, a, i).value, done[i := true])
  {
    var w := WorstFit(a.left, files[i]).value;
    var letter := a.left[w].letter;
    assert DistinctCapacities(a.left);
    TakeAt(a.left, w, files[i]);
    MaskedSet(files, done, i);
    forall v | 0 <= v < |cs|
      ensures PlacedBytes(files, a.letters[i := letter], done[i := true], cs[v].letter)
           == PlacedBytes(files, a.letters, done, cs[v].letter) + if v == w then files[i] else 0
    {
      PlacedStep(files, a.letters, done, i, letter, cs[v].letter);
    }
  }

  lemma PartKeepsStorable(cs: seq<Capacity>, files: seq<u64>, a: Assignment, done: seq<bool>, i: nat)
    requires SpaceBalanced(cs, files, a, done) && FilesStorable(cs, files, a.letters, done)
    requires i < |files| && !done[i] && AssignPart(files, a, i).Success?
    ensures FilesStorable(cs, files, AssignPart(files, a, i).value.letters, done[i := true])
  {
    var w := WorstFit(a.left, files[i]).value;
    assert cs[w].letter == a.left[w].letter && files[i] <= cs[w].maxFileBytes;
  }

  lemma PartKeepsReservations(cs: seq<Capacity>, files: seq<u64>, a: Assignment, done: seq<bool>, i: nat)
    requires SpaceBalanced(cs, files, a, done) && ReservationsExact(files, a, done)
    requires i < |files| && !done[i] && AssignPart(files, a, i).Success?
    ensures ReservationsExact(files, AssignPart(files, a, i).value, done[i := true])
  {
    var w := WorstFit(a.left, files[i]).value;
    var letter := a.left[w].letter;
    assert ReservedFor(a.reserved, letter) + a.left[w].usable == cs[w].usable;
    forall l
      ensures ReservedFor(Reserve(a.reserved, letter, files[i]), l)
           == PlacedBytes(files, a.letters[i := letter], done[i := true], l)
    {
      ReserveAdds(a.reserved, letter, files[i], l);
      PlacedStep(files, a.letters, done, i, letter, l);
    }
  }

  /** The parts among the first `k` of the order. */
  function DoneBy(order: seq<nat>, k: nat, n: nat): (done: seq<bool>)
    requires k <= |order|
    ensures |done| == n && forall j :: 0 <= j < n ==> done[j] == (j in order[..k])
  {
    seq(n, j requires 0 <= j < n => j in order[..k])
  }

  lemma DoneStep(order: seq<nat>, files: seq<u64>, k: nat)
    requires 0 < k <= |order| && Below(order, |files|) && Descends(order, files)
    ensures !DoneBy(order, k - 1, |files|)[order[k - 1]]
    ensures DoneBy(order, k, |files|) == DoneBy(order, k - 1, |files|)[order[k - 1] := true]
  {
    forall j | 0 <= j < k - 1 ensures order[j] != order[k - 1] {
      assert Precedes(order[j], order[k - 1], files);
    }
    assert order[..k] == order[..k - 1] + [order[k - 1]];
  }

  /** An assignment of the parts marked done: room, file limits and reservations all agree. */
  ghost predicate Consistent(cs: seq<Capacity>, files: seq<u64>, a: Assignment, done: seq<bool>) {
    SpaceBalanced(cs, files, a, done) && FilesStorable(cs, files, a.letters, done) && ReservationsExact(files, a, done)
  }

  lemma StartIsConsistent(cs: seq<Capacity>, primary: char, files: seq<u64>, done: seq<bool>)
    requires |done| == |files| && forall j :: 0 <= j < |done| ==> !done[j]
    ensures Consistent(cs, files, Unassigned(cs, primary, files), done)
  {
    var letters := seq(|files|, _ => primary);
    MaskedAtMost(files, done);
    forall l ensures PlacedBytes(files, letters, done, l) == 0 {
      MaskedAtMost(files, PlacedMask(letters, done, l));
    }
  }

  lemma PartKeepsConsistent(cs: seq<Capacity>, files: seq<u64>, a: Assignment, done: seq<bool>, i: nat)
    requires DistinctCapacities(cs) && Consistent(cs, files, a, done)
    requires i < |files| && !done[i] && AssignPart(files, a, i).Success?
    ensures Consistent(cs, files, AssignPart(files, a, i).value, done[i := true])
  {
    PartKeepsBalance(cs, files, a, done, i);
    PartKeepsStorable(cs, files, a, done, i);
    PartKeepsReservations(cs, files, a, done, i);
  }

  /** The bytes of the parts that a finished assignment puts on one volume. */
  function PartBytesOn(files: seq<u64>, letters: seq<char>, l: char): nat
    requires |files| == |letters|
  {
    Masked(files, seq(|files|, j requires 0 <= j < |files| => letters[j] == l))
  }

  lemma PlacedIsAll(files: seq<u64>, letters: seq<char>, done: seq<bool>, l: char)
    requires |files| == |letters| == |done| && forall j :: 0 <= j < |done| ==> done[j]
    ensures PlacedBytes(files, letters, done, l) == PartBytesOn(files, letters, l)
  {
    assert PlacedMask(letters, done, l) == seq(|files|, j requires 0 <= j < |files| => letters[j] == l);
  }

  /** Per volume the parts fit the room, each part can be stored where it lies, the reservations are the parts,
      and the room left over is what the parts do not take. */
  ghost predicate AssignmentFits(cs: seq<Capacity>, files: seq<u64>, a: Assignment) {
    && |a.letters| == |files|
    && (forall i :: 0 <= i < |cs| ==> PartBytesOn(files, a.letters, cs[i].letter) <= cs[i].usable)
    && (forall j :: 0 <= j < |files| ==>
          exists i :: 0 <= i < |cs| && cs[i].letter == a.letters[j] && files[j] <= cs[i].maxFileBytes)
    && (forall l :: ReservedFor(a.reserved, l) == PartBytesOn(files, a.letters, l))
    && TotalUsable(a.left) + Bytes(files) == TotalUsable(cs)
  }

  lemma ConsistentWhenDone(cs: seq<Capacity>, files: seq<u64>, a: Assignment, done: seq<bool>)
    requires Consistent(cs, files, a, done) && forall j :: 0 <= j < |done| ==> done[j]
    ensures AssignmentFits(cs, files, a)
  {
    MaskedAtMost(files, done);
    forall l ensures PlacedBytes(files, a.letters, done, l) == PartBytesOn(files, a.letters, l) {
      PlacedIsAll(files, a.letters, done, l);
    }
  }

  lemma {:induction false} AssignmentFitsFrom(cs: seq<Capacity>, files: seq<u64>, order: seq<nat>, a: Assignment,
                                              k: nat)
    requires DistinctCapacities(cs) && k <= |order| && Below(order, |files|) && Descends(order, files)
    requires forall j: nat :: j < |files| ==> j in order
    requires Consistent(cs, files, a, DoneBy(order, k, |files|))
    requires AssignFrom(files, order, a, k).Success?
    ensures AssignmentFits(cs, files, AssignFrom(files, order, a, k).value)
    decreases |order| - k
  {
    if k < |order| {
      DoneStep(order, files, k + 1);
      PartKeepsConsistent(cs, files, a, DoneBy(order, k, |files|), order[k]);
      AssignmentFitsFrom(cs, files, order, AssignPart(files, a, order[k]).value, k + 1);
    } else {
      assert order[..k] == order;
      ConsistentWhenDone(cs, files, a, DoneBy(order, k, |files|));
    }
  }

  /** A finished assignment fits. */
  lemma AssignedFits(cs: seq<Capacity>, primary: char, files: seq<u64>)
    requires DistinctCapacities(cs) && Assigned(cs, primary, files).Success?
    ensures AssignmentFits(cs, files, Assigned(cs, primary, files).value)
  {
    var order := DescendingOrder(files, |files|);
    DescendingOrderIsOrder(files, |files|);
    StartIsConsistent(cs, primary, files, DoneBy(order, 0, |files|));
    AssignmentFitsFrom(cs, files, order, Unassigned(cs, primary, files), 0);
  }

  /** A part that fits nowhere leaves less than its own size on every volume, all of which could store it. */
  lemma NoFitMeansTight(left: seq<Capacity>, size: u64)
    requires left != [] && forall i :: 0 <= i < |left| ==> left[i].maxFileBytes >= size
    requires WorstFit(left, size).None?
    ensures size > 0 && TotalUsable(left) <= |left| * (size - 1)
  {
    assert !Holds(left[0], size, size);
    forall i | 0 <= i < |left| ensures left[i].usable <= size - 1 {
      assert !Holds(left[i], size, size);
    }
    TotalIsAtMost(left, size - 1);
  }

  /** Every volume can store every part, and the room exceeds the parts by one byte less than the largest
      part for each volume but one. */
  predicate Slack(cs: seq<Capacity>, files: seq<u64>) {
    && cs != []
    && (forall i :: 0 <= i < |cs| ==> cs[i].maxFileBytes >= Largest(files))
    && TotalUsable(cs) >= Bytes(files) + (|cs| - 1) * (Largest(files) - 1)
  }

  lemma ProductIsNat(k: nat, d: nat)
    ensures k * d >= 0
  {
  }

  lemma FewerBytesEach(n: nat, size: int, largest: int)
    requires size <= largest && n > 0
    ensures n * (size - 1) < (n - 1) * (largest - 1) + size
  {
    var k, d := n - 1, largest - size;
    assert k * (largest - 1) == k * (size - 1) + k * d;
    assert n * (size - 1) == k * (size - 1) + (size - 1);
    ProductIsNat(k, d);
  }

  lemma RoomForTheRest(cs: seq<Capacity>, files: seq<u64>, a: Assignment, done: seq<bool>, i: nat)
    requires SpaceBalanced(cs, files, a, done) && i < |files| && !done[i]
    ensures TotalUsable(a.left) + Bytes(files) >= TotalUsable(cs) + files[i]
  {
    MaskedSet(files, done, i);
    MaskedAtMost(files, done[i := true]);
  }

  lemma SlackFindsRoom(cs: seq<Capacity>, files: seq<u64>, a: Assignment, done: seq<bool>, i: nat)
    requires SpaceBalanced(cs, files, a, done) && i < |files| && !done[i] && Slack(cs, files)
    ensures AssignPart(files, a, i).Success?
  {
    RoomForTheRest(cs, files, a, done, i);
    FewerBytesEach(|cs|, files[i], Largest(files));
    if WorstFit(a.left, files[i]).None? { NoFitMeansTight(a.left, files[i]); }
  }

  lemma {:induction false} SlackKeepsPlacing(cs: seq<Capacity>, files: seq<u64>, order: seq<nat>, a: Assignment, k: nat)
    requires DistinctCapacities(cs) && k <= |order| && Below(order, |files|) && Descends(order, files)
    requires Slack(cs, files) && Consistent(cs, files, a, DoneBy(order, k, |files|))
    ensures AssignFrom(files, order, a, k).Success?
    decreases |order| - k
  {
    if k < |order| {
      DoneStep(order, files, k + 1);
      SlackFindsRoom(cs, files, a, DoneBy(order, k, |files|), order[k]);
      PartKeepsConsistent(cs, files, a, DoneBy(order, k, |files|), order[k]);
      SlackKeepsPlacing(cs, files, order, AssignPart(files, a, order[k]).value, k + 1);
    }
  }

  // ---------------------------------------------------------------------------------------------
  // The plan
  // ---------------------------------------------------------------------------------------------

  /** Where the image goes, and what is left for everything else. */
  datatype Placed = Placed(image: Placement, reservations: seq<(char, u64)>, left: seq<Capacity>)

  function PlaceWhole(cs: seq<Capacity>, w: nat, bytes: u64): Placed
    requires w < |cs|
  {
    Placed(Whole(cs[w].letter), [(cs[w].letter, bytes)], Take(cs, cs[w].letter, bytes))
  }

  function PlaceSingle(cs: seq<Capacity>, bytes: u64, chunkable: bool): Result<Placed, ScatterError> {
    var fit := BestFit(cs, bytes, bytes);
    if fit.Some? then Success(PlaceWhole(cs, fit.value, bytes))
    else if !chunkable || SaturatingTotal(cs) < bytes then Failure(ImageTooLarge)
    else Success(Placed(Chunked, [], Consumed(cs, bytes)))
  }

  function PlaceFiles(cs: seq<Capacity>, primary: char, files: seq<u64>, together: bool): Result<Placed, ScatterError> {
    var total := CheckedBytes(files);
    if total.None? then Failure(SizeOverflow)
    else
      var fit := BestFit(cs, total.value, Largest(files));
      if fit.Some? then Success(PlaceWhole(cs, fit.value, total.value))
      else if together then Failure(ImageTooLarge)
      else
        var a :- Assigned(cs, primary, files);
        Success(Placed(PerFile(a.letters), a.reserved, a.left))
  }

  function PlaceImage(cs: seq<Capacity>, primary: char, image: Demand): Result<Placed, ScatterError> {
    match image
    case PrimaryTree(_) => Success(Placed(Whole(primary), [], cs))
    case SingleFile(bytes, chunkable) => PlaceSingle(cs, bytes, chunkable)
    case TogetherFiles(files) => PlaceFiles(cs, primary, files, true)
    case IndependentFiles(files) => PlaceFiles(cs, primary, files, false)
  }

  /** What always goes to the primary volume; an XP source tree counts whole. */
  function PrimaryNeeds(request: Request): Option<u64> {
    var tree := if request.image.PrimaryTree? then request.image.bytes else 0;
    if request.primaryFixedBytes + tree > U64_MAX then None else Some(request.primaryFixedBytes + tree)
  }

  predicate CanBePrimary(v: Volume, needs: u64) {
    SaturatingSub(v.freeBytes, ReserveBytes(true)) >= needs
  }

  function FindPrimary(vs: seq<Volume>, needs: u64): Option<char> {
    if vs == [] then None
    else if CanBePrimary(vs[0], needs) then Some(vs[0].letter)
    else FindPrimary(vs[1..], needs)
  }

  /** The plan for volumes that are already in scan order of the planner. */
  function PlanOf(vs: seq<Volume>, request: Request): Result<ScatterPlan, ScatterError> {
    if vs == [] then Failure(NoVolume)
    else
      var needs := PrimaryNeeds(request);
      if needs.None? then Failure(SizeOverflow)
      else
        var primary := FindPrimary(vs, needs.value);
        if primary.None? then Failure(PrimaryTooLarge)
        else
          var placed :- PlaceImage(Capacities(vs, primary.value, needs.value), primary.value, request.image);
          if SaturatingTotal(placed.left) < request.flexibleBytes then Failure(FlexibleTooLarge)
          else Success(ScatterPlan(primary.value, placed.image, placed.reservations))
  }

  method ChoosePrimary(vs: seq<Volume>, needs: u64) returns (primary: Option<char>)
    ensures primary == FindPrimary(vs, needs)
  {
    for i := 0 to |vs|
      invariant FindPrimary(vs[i..], needs) == FindPrimary(vs, needs)
    {
      if CanBePrimary(vs[i], needs) { return Some(vs[i].letter); }
      assert vs[i..][1..] == vs[i + 1..];
    }
    assert vs[|vs|..] == [];
    primary := None;
  }

  method PlaceDemand(cs: seq<Capacity>, primary: char, image: Demand) returns (r: Result<Placed, ScatterError>)
    ensures r == PlaceImage(cs, primary, image)
  {
    match image
    case PrimaryTree(_) => r := Success(Placed(Whole(primary), [], cs));
    case SingleFile(bytes, chunkable) =>
      var fit := BestFit(cs, bytes, bytes);
      if fit.Some? {
        r := Success(PlaceWhole(cs, fit.value, bytes));
      } else if chunkable && SaturatingTotal(cs) >= bytes {
        var left := ConsumeLargestFirst(cs, bytes);
        r := Success(Placed(Chunked, [], left));
      } else {
        r := Failure(ImageTooLarge);
      }
    case TogetherFiles(files) => r := PlaceSet(cs, primary, files, true);
    case IndependentFiles(files) => r := PlaceSet(cs, primary, files, false);
  }

  method PlaceSet(cs: seq<Capacity>, primary: char, files: seq<u64>, together: bool)
    returns (r: Result<Placed, ScatterError>)
    ensures r == PlaceFiles(cs, primary, files, together)
  {
    var total := CheckedBytes(files);
    if total.None? { return Failure(SizeOverflow); }
    var fit := BestFit(cs, total.value, Largest(files));
    if fit.Some? { return Success(PlaceWhole(cs, fit.value, total.value)); }
    if together { return Failure(ImageTooLarge); }
    var a := AssignParts(cs, primary, files);
    if a.Failure? { return Failure(a.error); }
    r := Success(Placed(PerFile(a.value.letters), a.value.reserved, a.value.left));
  }

  method PlanScatteredStaging(volumes: seq<Volume>, request: Request) returns (r: Result<ScatterPlan, ScatterError>)
    ensures r == PlanOf(SortVolumes(volumes), request)
  {
    var sorted := SortVolumes(volumes);
    if sorted == [] { return Failure(NoVolume); }
    var needs := PrimaryNeeds(request);
    if needs.None? { return Failure(SizeOverflow); }
    var primary := ChoosePrimary(sorted, needs.value);
    if primary.None? { return Failure(PrimaryTooLarge); }
    var placed := PlaceDemand(Capacities(sorted, primary.value, needs.value), primary.value, request.image);
    if placed.Failure? { return Failure(placed.error); }
    if SaturatingTotal(placed.value.left) < request.flexibleBytes { return Failure(FlexibleTooLarge); }
    r := Success(ScatterPlan(primary.value, placed.value.image, placed.value.reservations));
  }

  // ---------------------------------------------------------------------------------------------
  // What a plan promises
  // ---------------------------------------------------------------------------------------------

  /** The size of an image that is not part of the primary payload. */
  function ImageBytes(image: Demand): nat {
    match image
    case PrimaryTree(_) => 0
    case SingleFile(bytes, _) => bytes
    case TogetherFiles(files) => Bytes(files)
    case IndependentFiles(files) => Bytes(files)
  }

  function Files(image: Demand): seq<u64> {
    match image
    case PrimaryTree(_) => []
    case SingleFile(bytes, _) => [bytes]
    case TogetherFiles(files) => files
    case IndependentFiles(files) => files
  }

  /** The image bytes a placement puts on one volume; chunks are placed later. */
  function ImageBytesOn(placement: Placement, image: Demand, l: char): nat {
    match placement
    case Chunked => 0
    case Whole(w) => if w == l then ImageBytes(image) else 0
    case PerFile(letters) =>
      if |letters| == |Files(image)| then PartBytesOn(Files(image), letters, l) else 0
  }

  /** Every file of the image lies on a volume that can store a file of its size. */
  ghost predicate PlacementStorable(placement: Placement, image: Demand, cs: seq<Capacity>) {
    match placement
    case Chunked => true
    case Whole(w) => FilesStorable(cs, Files(image), seq(|Files(image)|, _ => w), seq(|Files(image)|, _ => true))
    case PerFile(letters) =>
      && |letters| == |Files(image)|
      && FilesStorable(cs, Files(image), letters, seq(|letters|, _ => true))
  }

  /** What a placement over given capacities keeps. */
  ghost predicate PlacedWell(cs: seq<Capacity>, image: Demand, placed: Placed) {
    && (forall i :: 0 <= i < |cs| ==> ImageBytesOn(placed.image, image, cs[i].letter) <= cs[i].usable)
    && (forall l :: ReservedFor(placed.reservations, l) == ImageBytesOn(placed.image, image, l))
    && TotalUsable(placed.left) + ImageBytes(image) == TotalUsable(cs)
    && PlacementStorable(placed.image, image, cs)
  }

  lemma WholeIsPlacedWell(cs: seq<Capacity>, w: nat, image: Demand, largest: u64)
    requires DistinctCapacities(cs) && w < |cs| && ImageBytes(image) <= cs[w].usable
    requires largest <= cs[w].maxFileBytes
    requires forall j :: 0 <= j < |Files(image)| ==> Files(image)[j] <= largest
    ensures PlacedWell(cs, image, PlaceWhole(cs, w, ImageBytes(image)))
  {
    TakeAt(cs, w, ImageBytes(image));
    var reserved := [(cs[w].letter, ImageBytes(image) as u64)];
    forall l ensures ReservedFor(reserved, l) == if l == cs[w].letter then ImageBytes(image) else 0 {
      assert ReservedFor(reserved[1..], l) == 0;
    }
  }

  lemma SingleIsPlacedWell(cs: seq<Capacity>, bytes: u64, chunkable: bool)
    requires DistinctCapacities(cs) && PlaceSingle(cs, bytes, chunkable).Success?
    ensures PlacedWell(cs, SingleFile(bytes, chunkable), PlaceSingle(cs, bytes, chunkable).value)
  {
    var fit := BestFit(cs, bytes, bytes);
    if fit.Some? {
      WholeIsPlacedWell(cs, fit.value, SingleFile(bytes, chunkable), bytes);
    } else {
      SaturatingTotalIs(cs);
      ConsumedIsExact(cs, bytes);
    }
  }

  lemma FilesArePlacedWell(cs: seq<Capacity>, primary: char, image: Demand)
    requires DistinctCapacities(cs) && (image.TogetherFiles? || image.IndependentFiles?)
    requires PlaceFiles(cs, primary, image.files, image.TogetherFiles?).Success?
    ensures PlacedWell(cs, image, PlaceFiles(cs, primary, image.files, image.TogetherFiles?).value)
  {
    CheckedBytesIs(image.files);
    var fit := BestFit(cs, Bytes(image.files), Largest(image.files));
    if fit.Some? {
      WholeIsPlacedWell(cs, fit.value, image, Largest(image.files));
    } else {
      AssignedFits(cs, primary, image.files);
    }
  }

  /** Wherever the image goes: it fits the room of each volume, reservations are exact, every file can be
      stored, and exactly the image's bytes are missing from the room left over. */
  lemma ImageIsPlacedWell(cs: seq<Capacity>, primary: char, image: Demand)
    requires DistinctCapacities(cs) && PlaceImage(cs, primary, image).Success?
    ensures PlacedWell(cs, image, PlaceImage(cs, primary, image).value)
  {
    match image
    case PrimaryTree(_) =>
    case SingleFile(bytes, chunkable) => SingleIsPlacedWell(cs, bytes, chunkable);
    case TogetherFiles(_) => FilesArePlacedWell(cs, primary, image);
    case IndependentFiles(_) => FilesArePlacedWell(cs, primary, image);
  }

  /** The bytes of a source tree, all of which go to the primary volume. */
  function TreeBytes(image: Demand): nat {
    match image
    case PrimaryTree(bytes) => bytes
    case _ => 0
  }

  /** What a volume offers to images and flexible payload: all but 512 MiB, and on the primary all but 2 GiB and
      the primary payload. */
  function RoomOn(v: Volume, primary: char, payload: nat): u64 {
    var kept := if v.letter == primary then 2_147_483_648 + payload else 536_870_912;
    if v.freeBytes < kept then 0 else v.freeBytes - kept
  }

  function Rooms(vs: seq<Volume>, primary: char, payload: nat): (cs: seq<Capacity>)
    ensures |cs| == |vs|
  {
    seq(|vs|, i requires 0 <= i < |vs| =>
      Capacity(vs[i].letter, RoomOn(vs[i], primary, payload), vs[i].maxFileBytes))
  }

  lemma RoomsAreCapacities(vs: seq<Volume>, primary: char, payload: u64)
    ensures Rooms(vs, primary, payload) == Capacities(vs, primary, payload)
  {
  }

  /** The primary payload: the fixed part and the source tree. */
  function PayloadBytes(request: Request): nat {
    request.primaryFixedBytes + TreeBytes(request.image)
  }

  lemma PrimaryNeedsAre(request: Request)
    ensures PrimaryNeeds(request) ==
      if PayloadBytes(request) > 0xFFFF_FFFF_FFFF_FFFF then None else Some(PayloadBytes(request))
  {
  }

  /** A payload that is not empty leaves 2 GiB free on its volume. */
  lemma CanBePrimaryExactly(v: Volume, needs: u64)
    ensures CanBePrimary(v, needs) <==> needs == 0 || needs + 2_147_483_648 <= v.freeBytes
  {
  }

  lemma PrimaryFits(vs: seq<Volume>, needs: u64)
    requires DistinctLetters(vs) && FindPrimary(vs, needs).Some?
    ensures exists i :: 0 <= i < |vs| && vs[i].letter == FindPrimary(vs, needs).value
    ensures forall i :: 0 <= i < |vs| && vs[i].letter == FindPrimary(vs, needs).value ==> CanBePrimary(vs[i], needs)
  {
    if !CanBePrimary(vs[0], needs) {
      PrimaryFits(vs[1..], needs);
      assert vs == [vs[0]] + vs[1..];
    }
  }

  /** No accepted plan overcommits. The primary volume holds the fixed payload, the source tree and its part of
      the image with 2 GiB to spare, and every other volume its part of the image with 512 MiB to spare, unless
      there is nothing to hold; reservations are exactly the image bytes; every file can be stored where it lies;
      and the room over all volumes covers the image and the flexible payload together. */
  lemma NeverOvercommits(vs: seq<Volume>, request: Request)
    requires DistinctLetters(vs) && PlanOf(vs, request).Success?
    ensures PayloadBytes(request) <= 0xFFFF_FFFF_FFFF_FFFF
    ensures var plan := PlanOf(vs, request).value;
      && (forall i :: 0 <= i < |vs| ==>
            var held := ImageBytesOn(plan.image, request.image, vs[i].letter)
                        + if vs[i].letter == plan.primary then PayloadBytes(request) else 0;
            var kept := if vs[i].letter == plan.primary then 2_147_483_648 else 536_870_912;
            held == 0 || held + kept <= vs[i].freeBytes)
      && (exists i :: 0 <= i < |vs| && vs[i].letter == plan.primary)
      && (forall l :: ReservedFor(plan.reservations, l) == ImageBytesOn(plan.image, request.image, l))
      && var rooms := Rooms(vs, plan.primary, PayloadBytes(request));
         && PlacementStorable(plan.image, request.image, rooms)
         && TotalUsable(rooms) >= ImageBytes(request.image) + request.flexibleBytes
  {
    var plan := PlanOf(vs, request).value;
    PrimaryNeedsAre(request);
    var needs := PayloadBytes(request);
    RoomsAreCapacities(vs, plan.primary, needs);
    var cs := Rooms(vs, plan.primary, needs);
    ImageIsPlacedWell(cs, plan.primary, request.image);
    SaturatingTotalIs(PlaceImage(cs, plan.primary, request.image).value.left);
    PrimaryFits(vs, needs);
    forall i | 0 <= i < |vs|
      ensures var held := ImageBytesOn(plan.image, request.image, vs[i].letter)
                          + if vs[i].letter == plan.primary then PayloadBytes(request) else 0;
        var kept := if vs[i].letter == plan.primary then 2_147_483_648 else 536_870_912;
        held == 0 || held + kept <= vs[i].freeBytes
    {
      assert ImageBytesOn(plan.image, request.image, cs[i].letter) <= cs[i].usable;
      CanBePrimaryExactly(vs[i], needs);
    }
  }

  /** With nothing to store, a volume below the reserve is still accepted as primary. */
  lemma EmptyPrimaryMayMissItsReserve()
    ensures var v := Volume('D', 1, U64_MAX); var request := Request(IndependentFiles([]), 0, 0);
      PlanOf([v], request) == Success(ScatterPlan('D', Whole('D'), [('D', 0)]))
  {
    var cs := Capacities([Volume('D', 1, U64_MAX)], 'D', 0);
    assert cs == [Capacity('D', 0, U64_MAX)];
    assert BestFit(cs, 0, 0) == Some(0);
    assert Take(cs, 'D', 0) == cs;
  }

  // ---------------------------------------------------------------------------------------------
  // When a plan exists
  // ---------------------------------------------------------------------------------------------

  /** The primary is the first volume in sorted order, the one with the most free space; it is refused
      only when no volume qualifies. */
  lemma {:induction false} PrimaryIsLargest(vs: seq<Volume>, needs: u64)
    requires SortedVolumes(vs) && vs != []
    ensures FindPrimary(vs, needs) == if CanBePrimary(vs[0], needs) then Some(vs[0].letter) else None
    ensures FindPrimary(vs, needs).None? <==> forall i :: 0 <= i < |vs| ==> !CanBePrimary(vs[i], needs)
    ensures forall i :: 0 <= i < |vs| ==> vs[i].freeBytes <= vs[0].freeBytes
  {
    forall i | 0 <= i < |vs| ensures vs[i].freeBytes <= vs[0].freeBytes {
      if i > 0 { assert Before(vs[0], vs[i]); }
    }
    if !CanBePrimary(vs[0], needs) {
      if |vs| > 1 { PrimaryIsLargest(vs[1..], needs); }
    }
  }

  /** The image finds a place of its own kind. */
  predicate ImagePlaceable(cs: seq<Capacity>, primary: char, image: Demand) {
    match image
    case PrimaryTree(_) => true
    case SingleFile(bytes, chunkable) => chunkable || exists i :: 0 <= i < |cs| && Holds(cs[i], bytes, bytes)
    case TogetherFiles(files) =>
      Bytes(files) <= U64_MAX && exists i :: 0 <= i < |cs| && Holds(cs[i], Bytes(files), Largest(files))
    case IndependentFiles(files) =>
      && Bytes(files) <= U64_MAX
      && ((exists i :: 0 <= i < |cs| && Holds(cs[i], Bytes(files), Largest(files)))
          || Assigned(cs, primary, files).Success?)
  }

  lemma PlaceableExactly(cs: seq<Capacity>, primary: char, image: Demand)
    requires ImageBytes(image) <= TotalUsable(cs)
    ensures PlaceImage(cs, primary, image).Success? <==> ImagePlaceable(cs, primary, image)
  {
    SaturatingTotalIs(cs);
    if image.TogetherFiles? || image.IndependentFiles? { CheckedBytesIs(image.files); }
  }

  /** A plan exists exactly when the primary payload fits u64 and, unless it is empty, leaves 2 GiB free on the
      largest volume, the image has a place of its own kind, and the room over all volumes covers image and
      flexible payload. */
  lemma AcceptsExactly(vs: seq<Volume>, request: Request)
    requires SortedVolumes(vs) && DistinctLetters(vs)
    ensures PlanOf(vs, request).Success? <==>
      && vs != [] && PayloadBytes(request) <= 0xFFFF_FFFF_FFFF_FFFF
      && (PayloadBytes(request) == 0 || PayloadBytes(request) + 2_147_483_648 <= vs[0].freeBytes)
      && var rooms := Rooms(vs, vs[0].letter, PayloadBytes(request));
         && ImagePlaceable(rooms, vs[0].letter, request.image)
         && ImageBytes(request.image) + request.flexibleBytes <= TotalUsable(rooms)
    ensures vs == [] ==> PlanOf(vs, request) == Failure(NoVolume)
    ensures vs != [] && PayloadBytes(request) > 0xFFFF_FFFF_FFFF_FFFF ==> PlanOf(vs, request) == Failure(SizeOverflow)
    ensures (vs != [] && 0 < PayloadBytes(request) <= 0xFFFF_FFFF_FFFF_FFFF
             && PayloadBytes(request) + 2_147_483_648 > vs[0].freeBytes) ==>
      PlanOf(vs, request) == Failure(PrimaryTooLarge)
  {
    PrimaryNeedsAre(request);
    if vs != [] && PrimaryNeeds(request).Some? {
      var needs := PrimaryNeeds(request).value;
      PrimaryIsLargest(vs, needs);
      CanBePrimaryExactly(vs[0], needs);
      RoomsAreCapacities(vs, vs[0].letter, needs);
      var cs := Capacities(vs, vs[0].letter, needs);
      if ImageBytes(request.image) <= TotalUsable(cs) { PlaceableExactly(cs, vs[0].letter, request.image); }
      var placed := PlaceImage(cs, vs[0].letter, request.image);
      if placed.Success? {
        ImageIsPlacedWell(cs, vs[0].letter, request.image);
        SaturatingTotalIs(placed.value.left);
      }
    }
  }

  /** The volume of least room that can hold a whole image, and among those the earliest letter. */
  predicate IsSmallestHolder(cs: seq<Capacity>, w: nat, total: u64, largestFile: u64)
    requires w < |cs|
  {
    && cs[w].usable >= total && cs[w].maxFileBytes >= largestFile
    && forall i :: 0 <= i < |cs| && cs[i].usable >= total && cs[i].maxFileBytes >= largestFile ==>
         cs[w].usable < cs[i].usable || (cs[w].usable == cs[i].usable && cs[w].letter <= cs[i].letter)
  }

  /** Where an image goes: a source tree to the primary; any other image whole to the smallest volume that can
      hold it, with that reservation; and only when none can, a single file in chunks, without reservations, and
      split parts one by one. */
  predicate GoesWhereItShould(cs: seq<Capacity>, primary: char, image: Demand, placement: Placement,
                              reservations: seq<(char, u64)>)
  {
    if image.PrimaryTree? then placement == Whole(primary) && reservations == []
    else
      var total := ImageBytes(image);
      var largest := Largest(Files(image));
      if total <= U64_MAX && exists i :: 0 <= i < |cs| && cs[i].usable >= total && cs[i].maxFileBytes >= largest then
        exists w :: 0 <= w < |cs| && IsSmallestHolder(cs, w, total, largest)
                    && placement == Whole(cs[w].letter) && reservations == [(cs[w].letter, total)]
      else if image.SingleFile? then image.chunkable && placement == Chunked && reservations == []
      else image.IndependentFiles? && placement.PerFile?
  }

  lemma PlacedWhereItShould(cs: seq<Capacity>, primary: char, image: Demand)
    requires PlaceImage(cs, primary, image).Success?
    ensures var placed := PlaceImage(cs, primary, image).value;
      GoesWhereItShould(cs, primary, image, placed.image, placed.reservations)
  {
    match image
    case PrimaryTree(_) =>
    case SingleFile(bytes, _) =>
      LargestIsOneOf([bytes]);
      var fit := BestFit(cs, bytes, bytes);
      if fit.Some? { assert IsSmallestHolder(cs, fit.value, bytes, bytes); }
    case TogetherFiles(files) => FilesWhereTheyShould(cs, primary, image);
    case IndependentFiles(files) => FilesWhereTheyShould(cs, primary, image);
  }

  lemma FilesWhereTheyShould(cs: seq<Capacity>, primary: char, image: Demand)
    requires image.TogetherFiles? || image.IndependentFiles?
    requires PlaceFiles(cs, primary, image.files, image.TogetherFiles?).Success?
    ensures var placed := PlaceFiles(cs, primary, image.files, image.TogetherFiles?).value;
      GoesWhereItShould(cs, primary, image, placed.image, placed.reservations)
  {
    CheckedBytesIs(image.files);
    var fit := BestFit(cs, Bytes(image.files), Largest(image.files));
    if fit.Some? { assert IsSmallestHolder(cs, fit.value, Bytes(image.files), Largest(image.files)); }
  }

  /** The primary of every plan is the largest volume, and its image goes where it should. */
  lemma PlanGoesWhereItShould(vs: seq<Volume>, request: Request)
    requires SortedVolumes(vs) && DistinctLetters(vs) && PlanOf(vs, request).Success?
    ensures var plan := PlanOf(vs, request).value;
      && plan.primary == vs[0].letter
      && GoesWhereItShould(Rooms(vs, vs[0].letter, PayloadBytes(request)), vs[0].letter, request.image, plan.image,
                           plan.reservations)
  {
    PrimaryNeedsAre(request);
    PrimaryIsLargest(vs, PayloadBytes(request));
    RoomsAreCapacities(vs, vs[0].letter, PayloadBytes(request));
    PlacedWhereItShould(Rooms(vs, vs[0].letter, PayloadBytes(request)), vs[0].letter, request.image);
  }

  /** Split parts are always placed when the room exceeds them by one byte less than the largest part for
      each volume but one. */
  lemma PartsWithSlackArePlaced(cs: seq<Capacity>, primary: char, files: seq<u64>)
    requires DistinctCapacities(cs) && Slack(cs, files)
    ensures Assigned(cs, primary, files).Success?
  {
    var order := DescendingOrder(files, |files|);
    DescendingOrderIsOrder(files, |files|);
    StartIsConsistent(cs, primary, files, DoneBy(order, 0, |files|));
    SlackKeepsPlacing(cs, files, order, Unassigned(cs, primary, files), 0);
  }

  /** How many parts of one size a volume, and all volumes together, can take. */
  function Slots(c: Capacity, size: u64): nat
    requires size > 0
  {
    if c.maxFileBytes >= size then c.usable / size else 0
  }

  function TotalSlots(cs: seq<Capacity>, size: u64): nat
    requires size > 0
  {
    if cs == [] then 0 else TotalSlots(cs[..|cs| - 1], size) + Slots(cs[|cs| - 1], size)
  }

  lemma {:induction false} SlotsAfterUpdate(cs: seq<Capacity>, i: nat, c: Capacity, size: u64)
    requires i < |cs| && size > 0
    ensures TotalSlots(cs[i := c], size) == TotalSlots(cs, size) - Slots(cs[i], size) + Slots(c, size)
  {
    var n := |cs| - 1;
    if i < n {
      SlotsAfterUpdate(cs[..n], i, c, size);
      assert cs[i := c][..n] == cs[..n][i := c];
    } else {
      assert cs[i := c][..n] == cs[..n];
    }
  }

  lemma {:induction false} NoSlots(cs: seq<Capacity>, size: u64)
    requires size > 0
    ensures TotalSlots(cs, size) == 0 <==> forall i :: 0 <= i < |cs| ==> Slots(cs[i], size) == 0
  {
    if cs != [] { NoSlots(cs[..|cs| - 1], size); }
  }

  lemma OneSlotLess(usable: u64, size: u64)
    requires size > 0
    ensures usable < size <==> usable / size == 0
    ensures usable >= size ==> (usable - size) / size == usable / size - 1
  {
    if usable < size {
      DivisionIs(usable, size, 0, usable);
    } else {
      var q, r := usable / size, usable % size;
      assert size * (q - 1) == size * q - size;
      DivisionIs(usable - size, size, q - 1, r);
      assert usable == size * q + r;
    }
  }

  lemma FittingHasSlot(c: Capacity, size: u64)
    requires size > 0
    ensures Holds(c, size, size) <==> Slots(c, size) > 0
    ensures Holds(c, size, size) ==> Slots(c.(usable := c.usable - size), size) == Slots(c, size) - 1
  {
    OneSlotLess(c.usable, size);
  }

  /** A part fits exactly when a slot is left. */
  lemma FitsIffSlot(cs: seq<Capacity>, size: u64)
    requires size > 0
    ensures WorstFit(cs, size).None? <==> TotalSlots(cs, size) == 0
  {
    NoSlots(cs, size);
    forall i | 0 <= i < |cs| ensures Holds(cs[i], size, size) <==> Slots(cs[i], size) > 0 {
      FittingHasSlot(cs[i], size);
    }
  }

  /** A part that fits takes exactly one slot. */
  lemma PartTakesOneSlot(cs: seq<Capacity>, w: nat, size: u64)
    requires DistinctCapacities(cs) && size > 0 && w < |cs| && Holds(cs[w], size, size)
    ensures var left := Take(cs, cs[w].letter, size);
      TotalSlots(left, size) == TotalSlots(cs, size) - 1 && DistinctCapacities(left)
  {
    FittingHasSlot(cs[w], size);
    TakeAt(cs, w, size);
    SlotsAfterUpdate(cs, w, cs[w].(usable := cs[w].usable - size), size);
  }

  lemma EqualPartStep(files: seq<u64>, a: Assignment, i: nat, size: u64)
    requires i < |files| == |a.letters| && size > 0 && files[i] == size && DistinctCapacities(a.left)
    ensures AssignPart(files, a, i).Success? <==> TotalSlots(a.left, size) > 0
    ensures AssignPart(files, a, i).Success? ==>
      var next := AssignPart(files, a, i).value;
      TotalSlots(next.left, size) == TotalSlots(a.left, size) - 1 && DistinctCapacities(next.left)
  {
    FitsIffSlot(a.left, size);
    var fit := WorstFit(a.left, size);
    if fit.Some? { PartTakesOneSlot(a.left, fit.value, size); }
  }

  lemma {:induction false} EqualPartsFrom(files: seq<u64>, order: seq<nat>, a: Assignment, k: nat, size: u64)
    requires k <= |order| && Below(order, |files|) && |a.letters| == |files| && size > 0
    requires DistinctCapacities(a.left) && forall j :: 0 <= j < |files| ==> files[j] == size
    ensures AssignFrom(files, order, a, k).Success? <==> TotalSlots(a.left, size) >= |order| - k
    decreases |order| - k
  {
    if k < |order| {
      EqualPartStep(files, a, order[k], size);
      var next := AssignPart(files, a, order[k]);
      if next.Success? { EqualPartsFrom(files, order, next.value, k + 1, size); }
    }
  }

  /** Parts of one size are placed exactly when the volumes have as many slots of that size as there are
      parts. */
  lemma EqualPartsExactly(cs: seq<Capacity>, primary: char, files: seq<u64>, size: u64)
    requires DistinctCapacities(cs) && size > 0 && forall j :: 0 <= j < |files| ==> files[j] == size
    ensures Assigned(cs, primary, files).Success? <==> |files| <= TotalSlots(cs, size)
  {
    EqualPartsFrom(files, DescendingOrder(files, |files|), Unassigned(cs, primary, files), 0, size);
  }

  /** Volumes with the same room and no file limit. */
  function AlikeVolumes(letters: seq<char>, usable: u64): (cs: seq<Capacity>)
    ensures |cs| == |letters|
  {
    seq(|letters|, i requires 0 <= i < |letters| => Capacity(letters[i], usable, U64_MAX))
  }

  lemma {:induction false} AlikeTotal(letters: seq<char>, usable: u64)
    ensures TotalUsable(AlikeVolumes(letters, usable)) == |letters| * usable
  {
    if letters != [] {
      var n := |letters| - 1;
      AlikeTotal(letters[..n], usable);
      assert AlikeVolumes(letters, usable)[..n] == AlikeVolumes(letters[..n], usable);
      assert |letters| * usable == n * usable + usable;
    }
  }

  /** No smaller slack would do: with any volumes and any part size, one byte less of it can be spread so
      that the part fits nowhere. */
  lemma SlackIsLeast(letters: seq<char>, size: u64, primary: char)
    requires letters != [] && size > 0
    ensures var cs := AlikeVolumes(letters, size - 1);
      && TotalUsable(cs) == Bytes([size]) + (|letters| - 1) * (size - 1) - 1
      && Assigned(cs, primary, [size]) == Failure(PartTooLarge(1))
  {
    var n := |letters|;
    AlikeTotal(letters, size - 1);
    assert n * (size - 1) == (n - 1) * (size - 1) + (size - 1);
    assert Bytes([size]) == size by { assert [size][..0] == []; }
    assert DescendingOrder([size], 1) == [0];
    assert WorstFit(AlikeVolumes(letters, size - 1), size).None?;
  }

  const REFUSED_PARTS: seq<u64> := [4, 3, 3]
  const REFUSING_ROOM: seq<Capacity> := [Capacity('C', 6, U64_MAX), Capacity('D', 4, U64_MAX)]

  lemma RefusedPartsInOrder()
    ensures DescendingOrder(REFUSED_PARTS, 3) == [0, 1, 2]
  {
    assert DescendingOrder(REFUSED_PARTS, 1) == [0];
    assert DescendingOrder(REFUSED_PARTS, 2) == [0, 1];
  }

  const AFTER_NO_PART := Assignment(REFUSING_ROOM, ['C', 'C', 'C'], [])
  const AFTER_FIRST_PART :=
    Assignment([Capacity('C', 2, U64_MAX), Capacity('D', 4, U64_MAX)], ['C', 'C', 'C'], [('C', 4)])
  const AFTER_SECOND_PART :=
    Assignment([Capacity('C', 2, U64_MAX), Capacity('D', 1, U64_MAX)], ['C', 'D', 'C'], [('C', 4), ('D', 3)])

  lemma RefusedPartsStepByStep()
    ensures AssignPart(REFUSED_PARTS, AFTER_NO_PART, 0) == Success(AFTER_FIRST_PART)
    ensures AssignPart(REFUSED_PARTS, AFTER_FIRST_PART, 1) == Success(AFTER_SECOND_PART)
    ensures AssignPart(REFUSED_PARTS, AFTER_SECOND_PART, 2) == Failure(PartTooLarge(3))
  {
    var room := AFTER_FIRST_PART.left;
    assert WorstFit(REFUSING_ROOM, 4) == Some(0);
    assert Take(REFUSING_ROOM, 'C', 4) == room;
    assert WorstFit(room, 3) == Some(1);
    assert Take(room, 'D', 3) == AFTER_SECOND_PART.left by {
      assert Take(room[1..], 'D', 3) == [Capacity('D', 1, U64_MAX)];
    }
    assert Reserve([('C', 4)], 'D', 3) == AFTER_SECOND_PART.reserved by {
      assert Reserve([('C', 4)][1..], 'D', 3) == [('D', 3)];
    }
    assert AFTER_NO_PART.letters[0 := 'C'] == AFTER_FIRST_PART.letters;
    assert AFTER_FIRST_PART.letters[1 := 'D'] == AFTER_SECOND_PART.letters;
  }

  lemma ThreePartBytes(files: seq<u64>, letters: seq<char>, l: char)
    requires |files| == |letters| == 3
    ensures PartBytesOn(files, letters, l) == (if letters[0] == l then files[0] as int else 0)
      + (if letters[1] == l then files[1] as int else 0) + (if letters[2] == l then files[2] as int else 0)
  {
    var mask := seq(3, j requires 0 <= j < 3 => letters[j] == l);
    assert Masked(files[..1], mask[..1]) == if mask[0] then files[0] else 0;
    assert files[..2][..1] == files[..1] && mask[..2][..1] == mask[..1];
    assert Masked(files[..2], mask[..2]) == Masked(files[..1], mask[..1]) + if mask[1] then files[1] else 0;
  }

  /** Without that slack the heuristic can refuse parts that do fit: 4, 3 and 3 bytes over room 6 and 4. */
  lemma WorstFitCanRefuseWhatFits()
    ensures Assigned(REFUSING_ROOM, 'C', REFUSED_PARTS) == Failure(PartTooLarge(3))
    ensures PartBytesOn(REFUSED_PARTS, ['D', 'C', 'C'], 'C') == 6
    ensures PartBytesOn(REFUSED_PARTS, ['D', 'C', 'C'], 'D') == 4
  {
    ThreePartBytes(REFUSED_PARTS, ['D', 'C', 'C'], 'C');
    ThreePartBytes(REFUSED_PARTS, ['D', 'C', 'C'], 'D');
    RefusedPartsInOrder();
    RefusedPartsStepByStep();
    var order: seq<nat> := [0, 1, 2];
    assert Unassigned(REFUSING_ROOM, 'C', REFUSED_PARTS) == AFTER_NO_PART;
    assert AssignFrom(REFUSED_PARTS, order, AFTER_SECOND_PART, 2) == Failure(PartTooLarge(3));
    assert AssignFrom(REFUSED_PARTS, order, AFTER_FIRST_PART, 1) == Failure(PartTooLarge(3));
  }

  /** The plan does not depend on the order in which the volumes were found. */
  lemma PlanIgnoresScanOrder(vs: seq<Volume>, ws: seq<Volume>, request: Request)
    requires DistinctLetters(vs) && multiset(vs) == multiset(ws)
    ensures PlanOf(SortVolumes(vs), request) == PlanOf(SortVolumes(ws), request)
  {
    ScanOrderIsIrrelevant(vs, ws);
  }
}
