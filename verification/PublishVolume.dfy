/** Publication, live rollback and recovery as the code performs them: one durable effect after
    another on one volume. The operating system's answer to each effect comes from a script of
    events; the script running out is the machine stopping. So a property of every script is a
    property of every fault, every interleaved foreign file and every crash point. */
module PublishVolume {
  import opened Wrappers
  import opened MachineIntegers
  import opened Text
  import opened PublishNames
  import opened PublishJournal
  import opened PublishProtocol

  /** How the operating system answers one durable effect. `Linked` is the rename fallback that
      creates a second link and then deletes the first one; `Late` performs the effect and then
      reports an error; `LostCustody` does nothing but can no longer tell; `Torn` makes only part of
      a file durable. */
  datatype Fate = Done | Linked | Rejected | Late | LostCustody | Torn(part: FileText)

  /** One answer, and possibly a foreign file that appears at the target just before. */
  datatype Event = Event(fate: Fate, foreign: Option<Object>)

  datatype Status = Completed | Failed | Crashed

  /** The end of a publication. `Declined` is an error before any effect and `NotPrepared` a failure to
      write the journal. A failed move is `Undone` when it was rolled back and the journal removed,
      `UndoneKeepingJournal` when only the journal stayed behind, and `Unproven` when the rollback itself
      failed. `Unfinished` is a failure behind the moves, `Stopped` the end of the script. */
  datatype Publication =
    Succeeded | Declined | NotPrepared | Undone | UndoneKeepingJournal | Unproven | Unfinished | Stopped

  /** The end of a recovery call. `Refused` is an error before any effect. */
  datatype Recovery = Recovered(outcome: RecoveryOutcome) | Refused | Interrupted

  ghost predicate Quiet(events: seq<Event>) {
    forall i :: 0 <= i < |events| ==> events[i].foreign == None
  }

  /** No foreign file and no fault; the link fallback may still be taken. */
  ghost predicate Smooth(events: seq<Event>) {
    Quiet(events) && forall i :: 0 <= i < |events| ==> events[i].fate == Done || events[i].fate == Linked
  }

  predicate IsFault(e: Event) {
    e.fate != Done && e.fate != Linked
  }

  /** No foreign file and at most one fault, one that leaves no doubt about what it did. */
  ghost predicate Tame(events: seq<Event>) {
    && Quiet(events)
    && (forall i :: 0 <= i < |events| ==> events[i].fate != LostCustody)
    && forall i, j :: 0 <= i < j < |events| ==> !IsFault(events[i]) || !IsFault(events[j])
  }

  lemma SmoothIsTame(events: seq<Event>)
    ensures Smooth(events) ==> Tame(events)
  {
  }

  /** Behind the head of a script. */
  lemma TailOf(events: seq<Event>)
    requires events != []
    ensures Quiet(events) ==> Quiet(events[1..])
    ensures Smooth(events) ==> Smooth(events[1..]) && !IsFault(events[0])
    ensures Tame(events) ==>
      Tame(events[1..]) && events[0].fate != LostCustody && (IsFault(events[0]) ==> Smooth(events[1..]))
  {
    if Tame(events) && IsFault(events[0]) {
      forall i | 0 <= i < |events[1..]| ensures !IsFault(events[1..][i]) {
        assert events[1..][i] == events[i + 1];
      }
    }
  }

  /** Every file the script makes appear is foreign. */
  ghost predicate ForeignOnly(t: Transaction, events: seq<Event>) {
    forall i :: 0 <= i < |events| && events[i].foreign.Some? ==> Foreign(t, events[i].foreign.value)
  }

  function Arrive(d: Disk, foreign: Option<Object>): Disk {
    if d.target == None then d.(target := foreign) else d
  }

  function WithLink(d: Disk, file: Object, to: SlotName): Disk {
    d.Put(to, Some(file))
  }

  function WithMove(d: Disk, file: Object, from: SlotName, to: SlotName): Disk {
    WithLink(d, file, to).Put(from, None)
  }

  predicate Movable(d: Disk, file: Object, from: SlotName, to: SlotName) {
    d.Get(from) == Some(file) && d.Get(to) == None
  }

  /** What `Rename` may leave behind at any point of its work. */
  ghost predicate Renamable(t: Transaction, d: Disk, file: Object, from: SlotName, to: SlotName) {
    Movable(d, file, from, to) ==>
      && Step(t, d, WithLink(d, file, to))
      && Step(t, d, WithMove(d, file, from, to))
      && Step(t, WithLink(d, file, to), WithMove(d, file, from, to))
  }

  /** A foreign file at the target leaves nothing to rename there. */
  lemma ForeignBlocksRename(t: Transaction, a: Disk, b: Disk, file: Object, from: SlotName, to: SlotName)
    requires ForeignAppears(t, a, b)
    requires from == Target || to == Target
    requires OldAt(t, Some(file)) || NewAt(t, Some(file))
    ensures !Movable(b, file, from, to)
  {
  }

  lemma OldIsRenamable(t: Transaction, d: Disk, from: SlotName, to: SlotName)
    requires Prepared(t, d) && t.oldImage.Some? && NewAt(t, d.staged) && Unreceipted(t, d)
    requires (from == Target && to == Previous) || (from == Previous && to == Target)
    ensures Renamable(t, d, t.oldImage.value, from, to)
  {
    if Movable(d, t.oldImage.value, from, to) {
      var linked, moved := WithLink(d, t.oldImage.value, to), WithMove(d, t.oldImage.value, from, to);
      assert OldMoves(t, d, linked) && OldMoves(t, d, moved) && OldMoves(t, linked, moved);
    }
  }

  lemma NewIsRenamable(t: Transaction, d: Disk, from: SlotName, to: SlotName)
    requires Prepared(t, d) && OldParked(t, d) && Unreceipted(t, d)
    requires (from == Target && to == Staged) || (from == Staged && to == Target)
    ensures Renamable(t, d, t.newImage, from, to)
  {
    if Movable(d, t.newImage, from, to) {
      var linked, moved := WithLink(d, t.newImage, to), WithMove(d, t.newImage, from, to);
      assert NewMoves(t, d, linked) && NewMoves(t, d, moved) && NewMoves(t, linked, moved);
    }
  }

  /** Deleting slot `s` is a step now, and still one if a foreign file appears first. */
  ghost predicate Deletable(t: Transaction, d: Disk, s: SlotName) {
    && d.Get(s).Some?
    && forall now: Disk :: now == d || ForeignAppears(t, d, now) ==> Step(t, now, now.Put(s, None))
  }

  /** The public link of the new image may go while the private one stays. */
  lemma PublicLinkIsDeletable(t: Transaction, d: Disk)
    requires Prepared(t, d) && OldParked(t, d) && Unreceipted(t, d)
    requires NewAt(t, d.target) && NewAt(t, d.staged)
    ensures Deletable(t, d, Target)
  {
    assert NewMoves(t, d, d.Put(Target, None));
  }

  lemma PreviousIsDeletable(t: Transaction, d: Disk)
    requires Prepared(t, d) && OldAt(t, d.previous) && Published(t, d)
    ensures Deletable(t, d, Previous)
  {
    assert PreviousDropped(t, d, d.Put(Previous, None));
  }

  lemma StagedIsDeletable(t: Transaction, d: Disk)
    requires WellFormed(t) && (Prepared(t, d) || d.journal == None)
    requires d.previous == None && NewAt(t, d.staged) && !NewAt(t, d.target)
    ensures Deletable(t, d, Staged)
  {
    forall now: Disk | now == d || ForeignAppears(t, d, now) ensures Step(t, now, now.Put(Staged, None)) {
      assert StagedDropped(t, now, now.Put(Staged, None));
    }
  }

  /** Dropping the journal is a step now, and still one if a foreign file appears first. */
  ghost predicate JournalDeletable(t: Transaction, d: Disk) {
    forall now: Disk :: now == d || ForeignAppears(t, d, now) ==> JournalDropped(t, now, now.(journal := None))
  }

  lemma JournalIsDeletable(t: Transaction, d: Disk)
    requires Prepared(t, d) && d.previous == None
    requires NewAt(t, d.target) ==> d.staged == None
    ensures JournalDeletable(t, d)
  {
  }

  /** Writing the journal, whatever comes of it, moves nothing. */
  lemma WritingStops(t: Transaction, a: Disk, b: Disk)
    requires NotYetMoved(t, a) && a.journal == None && !NewAt(t, a.target)
    requires a == b.(journal := None) || ForeignAppears(t, a, b.(journal := None))
    requires b.journal == None || Prepared(t, b) || TornJournal(t, b)
    ensures PublicationStop(t, b) && NotYetMoved(t, b) && !NewAt(t, b.target)
  {
  }

  predicate ValidNames(session: Session) {
    && ValidComponent(session.targetName)
    && ValidExtension(session.stagedExtension)
    && MatchingExtension(session.targetName, session.stagedExtension)
  }

  predicate ValidRequest(session: Session, mode: PublishMode, expectedOld: Option<FileExpectation>,
                         expectedNew: FileExpectation)
  {
    && ValidNames(session)
    && expectedNew.length != 0
    && (expectedOld.Some? ==> expectedOld.value.length != 0)
    && (mode == Create <==> expectedOld.None?)
  }

  /** The caller's knowledge of the old image, if there is one, is up to date. */
  ghost predicate OldMatches(t: Transaction, expectedOld: Option<FileExpectation>,
                             prepared: Option<(Object, FileIdentity)>, staged: FileIdentity)
  {
    if t.oldImage.None? then expectedOld == None && prepared == None
    else
      var identity := Observe(t.session, t.oldImage.value);
      && identity.Some?
      && expectedOld == Some(identity.value.expectation)
      && identity.value.id.volume == staged.id.volume
      && identity.value.id != staged.id
      && (prepared.Some? ==> prepared.value.1 == identity.value)
  }

  /** A request that publication has no reason to refuse. */
  ghost predicate RequestMatches(t: Transaction, expectedOld: Option<FileExpectation>,
                                 expectedNew: FileExpectation, prepared: Option<(Object, FileIdentity)>)
  {
    && t.record.Some?
    && var newIdentity := Observe(t.session, t.newImage);
    && newIdentity.Some? && newIdentity.value.expectation == expectedNew
    && newIdentity.value.id.volume == t.session.volume
    && OldMatches(t, expectedOld, prepared, newIdentity.value)
  }

  lemma MatchingRequestIsValid(t: Transaction, expectedOld: Option<FileExpectation>,
                               expectedNew: FileExpectation, prepared: Option<(Object, FileIdentity)>)
    requires WellFormed(t) && Described(t) && RequestMatches(t, expectedOld, expectedNew, prepared)
    ensures ValidRequest(t.session, t.mode, expectedOld, expectedNew)
  {
  }

  ghost predicate RecordIs(t: Transaction, journal: Journal, text: string, newIdentity: FileIdentity) {
    t.record == Some(Record(journal, text, ReceiptName(t.session.sessionId, Receipt(t.mode, newIdentity))))
  }

  /** A checked request determines the record of its transaction. */
  lemma RecordIsKnown(t: Transaction, journal: Journal, newIdentity: FileIdentity)
    requires WellFormed(t) && Described(t) && ValidSessionId(t.session.sessionId)
    requires ValidNames(t.session)
    requires Observe(t.session, t.newImage) == Some(newIdentity)
    requires t.oldImage.Some? ==> Observe(t.session, t.oldImage.value).Some?
    requires journal == Journal(t.mode, t.session.sessionId, t.session.targetName, t.session.stagedExtension,
                                if t.oldImage.Some? then Observe(t.session, t.oldImage.value) else None, newIdentity)
    requires Utf8Length(Encode(t.session.textDigest, journal)) <= JOURNAL_MAX_BYTES
    ensures RecordIs(t, journal, Encode(t.session.textDigest, journal), newIdentity)
  {
    assert journal == JournalOf(t);
  }

  /** When recovery from the journal refuses and leaves everything as it is. */
  ghost predicate RefusesRecovery(t: Transaction, d: Disk, requested: Option<PublishMode>) {
    || !Prepared(t, d)
    || (requested.Some? && requested.value != t.mode)
    || Decision(t, d) == None
  }

  /** The flags of a failed publication say only what happened, and nothing is in the way of undoing it. */
  ghost predicate Undoable(t: Transaction, d: Disk, oldMoved: bool, newPublished: bool) {
    && (newPublished ==> NewAt(t, d.target))
    && (oldMoved ==> OldAt(t, d.previous) && !OldAt(t, d.target) && !ForeignAt(t, d.target))
  }

  /** A session without journal and receipt whose images cannot be named or observed. */
  ghost predicate Unaddressable(t: Transaction, d: Disk) {
    d.journal == None && Unreceipted(t, d) && !Addressable(t)
  }

  /** The disks without journal and receipt that recovery refuses: a create wants its target absent, the other
      modes want it present and on the session's volume, and a staged image must be on that volume too. */
  predicate RefusesUnprepared(t: Transaction, d: Disk, mode: PublishMode) {
    || !ValidNames(t.session)
    || (if mode == Create then d.target.Some? else d.target.None? || !OnVolume(t, d.target.value))
    || (d.staged.Some? && d.staged.value.id.volume != t.session.volume)
  }

  predicate OnVolume(t: Transaction, o: Object) {
    Observe(t.session, o).Some? && o.id.volume == t.session.volume
  }

  /** The prepared disks that recovery refuses. */
  ghost predicate RefusesPrepared(t: Transaction, d: Disk) {
    && Prepared(t, d)
    && (ForeignAt(t, d.target) || OldLinkedTwice(t, d) || (d.staged == None && !NewAt(t, d.target)))
  }

  /** The old image is under its public and its private name. */
  ghost predicate OldLinkedTwice(t: Transaction, d: Disk) {
    OldAt(t, d.target) && OldAt(t, d.previous)
  }

  /** The calls that recovery refuses. */
  ghost predicate RefusesCall(t: Transaction, d: Disk, mode: PublishMode) {
    if d.journal.Some? then !Prepared(t, d) || mode != t.mode || RefusesPrepared(t, d)
    else if Receipted(t, d) then mode != t.mode
    else RefusesUnprepared(t, d, mode)
  }

  /** The answer of a recovery that finishes. Without journal and receipt it is always `RolledBack`. */
  ghost function AnswerTo(t: Transaction, d: Disk): RecoveryOutcome {
    if (if d.journal.Some? then Published(t, d) else Receipted(t, d)) then Committed else RolledBack
  }

  /** The same object, or a foreign file where there was nothing. */
  ghost predicate SameTarget(t: Transaction, before: Option<Object>, now: Option<Object>) {
    now == before || (before == None && ForeignAt(t, now))
  }

  /** One recovery call: the disk it found, its request and script, its answer, and the disk it left. */
  ghost predicate Recovers(t: Transaction, found: Disk, mode: PublishMode, events: seq<Event>, answer: Recovery,
                           left: Disk)
  {
    && (answer == Refused <==> RefusesCall(t, found, mode))
    && (answer == Refused ==> left == found)
    && left.directory == found.directory
    && (answer.Recovered? ==>
          answer.outcome == AnswerTo(t, found) && left.journal == None && left.staged == None && left.previous == None)
    && (answer.Recovered? && found.journal.Some? ==>
          Settled(t, left, answer.outcome) || (!Quiet(events) && LostToForeign(t, left, answer.outcome)))
    && (AnswerTo(t, found) == Committed ==> left.target == found.target)
    && (found.journal == None ==>
          && left.journal == None && left.previous == None && (left.staged == None || left.staged == found.staged)
          && SameTarget(t, found.target, left.target) && (Quiet(events) ==> left.target == found.target))
    && (found.journal == None && found.staged == None ==> left == found && answer != Interrupted)
    && (Smooth(events) && |events| >= 5 ==> answer != Interrupted)
  }

  /** The disk that each end of a publication leaves. */
  ghost predicate Leaves(t: Transaction, d: Disk, end: Publication) {
    match end
    case Succeeded => Settled(t, d, Committed) && Receipted(t, d)
    case Declined => true
    case NotPrepared => NotYetMoved(t, d) && (d.journal == None || TornJournal(t, d) || Prepared(t, d))
    case Undone => NotYetMoved(t, d) && d.journal == None
    case UndoneKeepingJournal => NotYetMoved(t, d) && (d.journal == None || Prepared(t, d))
    case Unproven => Midway(t, d)
    case Unfinished => Published(t, d) && (Midway(t, d) || Committing(t, d))
    case Stopped => true
  }

  ghost function DecisionOrNone(t: Transaction, d: Disk): Option<RecoveryOutcome> {
    if Prepared(t, d) then Decision(t, d) else None
  }

  /** The images can be named and observed on the session's volume. */
  ghost predicate Addressable(t: Transaction) {
    && ValidNames(t.session)
    && t.newImage.id.volume == t.session.volume
    && (t.oldImage.Some? ==>
        Observe(t.session, t.oldImage.value).Some? && t.oldImage.value.id.volume == t.session.volume)
  }

  /** A create that was rolled back while someone else took the empty target. */
  ghost predicate LostToForeign(t: Transaction, d: Disk, outcome: RecoveryOutcome) {
    && outcome == RolledBack && t.oldImage.None?
    && d.previous == None && d.staged == None && d.journal == None
    && ForeignAt(t, d.target)
  }

  /** The three shapes that recovery rolls back. */
  lemma RollbackSlotsAre(t: Transaction, d: Disk)
    requires WellFormed(t) && Described(t) && Invariant(t, d) && Prepared(t, d)
    requires Decision(t, d) == Some(RolledBack)
    ensures NewAt(t, d.staged) && Unreceipted(t, d)
    ensures NewAt(t, d.target) ==> OldParked(t, d)
    ensures t.oldImage.None? ==> d.previous == None && (d.target == None || NewAt(t, d.target))
    ensures t.oldImage.Some? && !NewAt(t, d.target) ==>
      (OldAt(t, d.target) && d.previous == None) || (d.target == None && OldAt(t, d.previous))
  {
    ClassifyIsExact(t, d.target);
    ClassifyIsExact(t, d.previous);
    ClassifyIsExact(t, d.staged);
  }

  class BackupVolume {
    const session: Session
    ghost const t: Transaction
    var disk: Disk
    var events: seq<Event>
    /** Every durable state so far. */
    ghost var run: seq<Disk>

    ghost predicate Valid()
      reads this
    {
      && WellFormed(t)
      && t.session == session
      // this is Described(t), known only where a proof names it
      && (forall u: Transaction {:trigger Described(u)} :: u == t ==> Described(u))
      && ValidSessionId(session.sessionId)
      && LegalRun(t, run)
      && run[|run| - 1] == disk
      && ForeignOnly(t, events)
    }

    /** What every method does to the history and the script. */
    twostate predicate Progress(atMost: nat)
      reads this
    {
      && old(run) <= run
      && old(|events|) <= |events| + atMost
      && (old(Quiet(events)) ==> Quiet(events))
      && (old(Smooth(events)) ==> Smooth(events))
      && (old(Tame(events)) ==> Tame(events))
    }

    /** At most a foreign file appeared, and none in a quiet script. */
    twostate predicate OnlyDrift(now: Disk)
      reads this
    {
      now == old(disk) || (ForeignAppears(t, old(disk), now) && !old(Quiet(events)))
    }

    constructor (ghost transaction: Transaction, session: Session, disk: Disk, events: seq<Event>)
      requires WellFormed(transaction) && Described(transaction)
      requires transaction.session == session && ValidSessionId(session.sessionId)
      requires Initial(transaction, disk) && ForeignOnly(transaction, events)
      ensures Valid() && t == transaction
      ensures this.disk == disk && this.events == events && run == [disk]
    {
      this.t := transaction;
      this.session := session;
      this.disk := disk;
      this.events := events;
      this.run := [disk];
    }

    /** The machine starts again after a stop, with a new script. */
    method Restart(events: seq<Event>)
      requires Valid()
      requires ForeignOnly(t, events)
      modifies this`events
      ensures Valid() && this.events == events
    {
      this.events := events;
    }

    lemma CurrentInvariant()
      requires Valid()
      ensures Invariant(t, disk)
    {
      RunKeepsInvariant(t, run, |run| - 1);
    }

    // -------------------------------------------------------------------------------------------
    // Single effects
    // -------------------------------------------------------------------------------------------

    method Apply(d: Disk)
      requires Valid() && Step(t, disk, d)
      modifies this`disk, this`run
      ensures Valid() && disk == d && run == old(run) + [d]
    {
      ExtendRun(t, run, d);
      disk := d;
      run := run + [d];
    }

    /** Take the next answer; `None` is a stop before the effect. */
    method Next() returns (e: Option<Event>)
      requires Valid()
      modifies this
      ensures Valid() && Progress(1) && OnlyDrift(disk)
      ensures e.None? ==> disk == old(disk)
      ensures old(|events|) > 0 ==> e.Some? && |events| == old(|events|) - 1
      ensures e.Some? && old(Smooth(events)) ==> !IsFault(e.value)
      ensures e.Some? && old(Tame(events)) ==> e.value.fate != LostCustody && (IsFault(e.value) ==> Smooth(events))
    {
      if |events| == 0 {
        return None;
      }
      var first := events[0];
      TailOf(events);
      events := events[1..];
      var arrived := Arrive(disk, first.foreign);
      if arrived != disk {
        Apply(arrived);
      }
      return Some(first);
    }

    /** Rename without replacing. `moved` reports that the name may have changed even on failure. */
    method Rename(file: Object, from: SlotName, to: SlotName) returns (moved: bool, status: Status)
      requires Valid()
      requires from != to && (from == Target || to == Target)
      requires OldAt(t, Some(file)) || NewAt(t, Some(file))
      requires Renamable(t, disk, file, from, to)
      modifies this
      ensures Valid() && Progress(2)
      ensures
        || OnlyDrift(disk)
        || (old(Movable(disk, file, from, to))
            && (disk == old(WithLink(disk, file, to)) || disk == old(WithMove(disk, file, from, to))))
      ensures status == Completed ==>
          moved && old(Movable(disk, file, from, to)) && disk == old(WithMove(disk, file, from, to))
      ensures status == Failed && !moved ==> OnlyDrift(disk)
      ensures old(Smooth(events) && |events| >= 2 && Movable(disk, file, from, to)) ==> status == Completed
      ensures old(Tame(events) && |events| >= 2) ==> status != Crashed
      ensures old(Tame(events) && Movable(disk, file, from, to)) && status == Failed ==>
        Smooth(events) && (moved ==> disk.Get(to) == Some(file))
    {
      moved := false;
      var e := Next();
      if e.None? {
        return false, Crashed;
      }
      if !Movable(disk, file, from, to) {
        return false, Failed;
      }
      assert disk == old(disk) by {
        if disk != old(disk) { ForeignBlocksRename(t, old(disk), disk, file, from, to); }
      }
      match e.value.fate {
        case Done =>
          Apply(WithMove(disk, file, from, to));
          return true, Completed;
        case Late =>
          Apply(WithMove(disk, file, from, to));
          return true, Failed;
        case LostCustody =>
          return true, Failed;
        case Rejected =>
          return false, Failed;
        case Torn(_) =>
          return false, Failed;
        case Linked =>
          status := LinkThenDelete(file, from, to);
          return true, status;
      }
    }

    /** The rename fallback: a second link, and then the first one deleted. */
    method LinkThenDelete(file: Object, from: SlotName, to: SlotName) returns (status: Status)
      requires Valid() && Movable(disk, file, from, to) && Renamable(t, disk, file, from, to)
      requires from != to && (from == Target || to == Target)
      modifies this
      ensures Valid() && Progress(1)
      ensures disk == old(WithLink(disk, file, to)) || disk == old(WithMove(disk, file, from, to))
      ensures status == Completed ==> disk == old(WithMove(disk, file, from, to))
      ensures old(Smooth(events) && |events| >= 1) ==> status == Completed
      ensures old(Tame(events) && |events| >= 1) ==> status != Crashed
      ensures old(Tame(events)) && status == Failed ==> Smooth(events)
    {
      ghost var moved := WithMove(disk, file, from, to);
      Apply(WithLink(disk, file, to));
      assert moved == disk.Put(from, None);
      status := DeleteSlot(from);
    }

    /** Delete one name through its exact handle. */
    method DeleteSlot(s: SlotName) returns (status: Status)
      requires Valid() && Deletable(t, disk, s)
      modifies this
      ensures Valid() && Progress(1)
      ensures OnlyDrift(disk.Put(s, old(disk.Get(s)))) && (disk.Get(s) == None || disk.Get(s) == old(disk.Get(s)))
      ensures status == Completed ==> disk.Get(s) == None
      ensures old(Smooth(events) && |events| >= 1) ==> status == Completed
      ensures old(Tame(events) && |events| >= 1) ==> status != Crashed
      ensures old(Tame(events)) && status == Failed ==> Smooth(events)
    {
      var e := Next();
      if e.None? {
        return Crashed;
      }
      var fate := e.value.fate;
      ghost var before := disk;
      if fate == Done || fate == Linked || fate == Late {
        Apply(disk.Put(s, None));
        assert disk.Put(s, before.Get(s)) == before;
      }
      return if fate == Done || fate == Linked then Completed else Failed;
    }

    method DeleteJournal() returns (status: Status)
      requires Valid()
      requires JournalDeletable(t, disk)
      modifies this
      ensures Valid() && Progress(1)
      ensures OnlyDrift(disk.(journal := old(disk.journal)))
      ensures disk.journal == None || disk.journal == old(disk.journal)
      ensures status == Completed ==> disk.journal == None
      ensures old(Smooth(events) && |events| >= 1) ==> status == Completed
      ensures old(Tame(events) && |events| >= 1) ==> status != Crashed
    {
      var e := Next();
      if e.None? {
        return Crashed;
      }
      var fate := e.value.fate;
      ghost var before := disk;
      if fate == Done || fate == Linked || fate == Late {
        Apply(disk.(journal := None));
        assert disk.(journal := before.journal) == before;
      }
      return if fate == Done || fate == Linked then Completed else Failed;
    }

    /** Create, write and flush the journal file. */
    method WriteJournal(text: string) returns (status: Status)
      requires Valid() && NotYetMoved(t, disk) && disk.journal == None
      requires t.record.Some? && text == t.record.value.journalText
      requires !NewAt(t, disk.target)
      modifies this
      ensures Valid() && Progress(1)
      ensures OnlyDrift(disk.(journal := None))
      ensures disk.journal == None || Prepared(t, disk) || TornJournal(t, disk)
      ensures status == Completed ==> Prepared(t, disk)
      ensures old(Smooth(events) && |events| >= 1) ==> status == Completed
      ensures old(Tame(events) && |events| >= 1) ==> status != Crashed
    {
      var e := Next();
      if e.None? {
        return Crashed;
      }
      match e.value.fate {
        case Done =>
          Apply(disk.(journal := Some(Utf8(text))));
          return Completed;
        case Linked =>
          Apply(disk.(journal := Some(Utf8(text))));
          return Completed;
        case Late =>
          Apply(disk.(journal := Some(Utf8(text))));
          return Failed;
        case Torn(part) =>
          if part.NotUtf8? || part.text < text {
            Apply(disk.(journal := Some(part)));
          }
          return Failed;
        case Rejected =>
          return Failed;
        case LostCustody =>
          return Failed;
      }
    }

    /** Rename the private directory to the receipt that describes the published image. */
    method MarkCommitted(mode: PublishMode, identity: FileIdentity) returns (status: Status)
      requires Valid() && Prepared(t, disk) && OldParked(t, disk) && Unreceipted(t, disk) && Published(t, disk)
      requires t.record.value.receiptName == ReceiptName(session.sessionId, Receipt(mode, identity))
      modifies this
      ensures Valid() && Progress(1)
      ensures disk == old(disk) || (Receipted(t, disk) && disk == old(disk).(directory := disk.directory))
      ensures status == Completed ==> Receipted(t, disk)
      ensures old(Smooth(events) && |events| >= 1) ==> status == Completed
      ensures old(Tame(events) && |events| >= 1) ==> status != Crashed
    {
      var e := Next();
      if e.None? {
        return Crashed;
      }
      var fate := e.value.fate;
      if fate == Done || fate == Linked || fate == Late {
        Apply(disk.(directory := Renamed(ReceiptName(session.sessionId, Receipt(mode, identity)))));
      }
      return if fate == Done || fate == Linked then Completed else Failed;
    }

    /** Read and parse the journal file; `None` when it is absent or not exactly a journal. */
    method ReadJournal() returns (r: Option<Journal>)
      requires Valid()
      ensures Prepared(t, disk) ==> r == Some(t.record.value.journal)
      ensures TornJournal(t, disk) || disk.journal == None ==> r == None
    {
      if disk.journal == None || disk.journal.value.NotUtf8? {
        return None;
      }
      var parsed := Parse(session.textDigest, disk.journal.value.text);
      assert Described(t);
      if t.record.Some? {
        ParseOfEncode(session.textDigest, JournalOf(t));
        if TornJournal(t, disk) {
          TornJournalIsRefused(session.textDigest, JournalOf(t), disk.journal.value.text);
        }
      }
      return if parsed.Success? then Some(parsed.value) else None;
    }

    /** Read the receipt from the private directory's own name. */
    method ReadReceipt() returns (r: Result<Option<Receipt>, JournalError>)
      requires Valid()
      ensures Unreceipted(t, disk) ==> r == Success(None)
      ensures Receipted(t, disk) ==>
        && Observe(session, t.newImage).Some?
        && r == Success(Some(Receipt(t.mode, Observe(session, t.newImage).value)))
    {
      if disk.directory == Created {
        return Success(None);
      }
      r := ParseReceipt(session.sessionId, disk.directory.name);
      assert Described(t);
      if Receipted(t, disk) {
        ReceiptRoundTrip(session.sessionId, Receipt(t.mode, Observe(session, t.newImage).value));
      }
    }

    // -------------------------------------------------------------------------------------------
    // Publication
    // -------------------------------------------------------------------------------------------

    /** Move the old image out of the target and the new one in. On failure the flags say how far it
        may have come. */
    method MoveImages(prior: Option<Object>, staged: Object)
      returns (oldMoved: bool, newPublished: bool, status: Status)
      requires Valid() && Prepared(t, disk) && NotYetMoved(t, disk)
      requires prior == t.oldImage && staged == t.newImage
      requires !NewAt(t, disk.target)
      modifies this
      ensures Valid() && Progress(4) && Midway(t, disk)
      ensures old(Quiet(events)) && !old(ForeignAt(t, disk.target)) ==> !ForeignAt(t, disk.target)
      ensures status == Completed ==> Published(t, disk) && OldParked(t, disk)
      ensures status == Failed && !newPublished ==> NewAt(t, disk.staged) && !NewAt(t, disk.target)
      ensures status == Failed && newPublished ==> OldParked(t, disk)
      ensures status == Failed && t.oldImage.Some? && !oldMoved ==> OldAt(t, disk.target) && disk.previous == None
      ensures old(Smooth(events) && |events| >= 4 && !ForeignAt(t, disk.target)) ==> status == Completed
      ensures old(Tame(events) && |events| >= 4) ==> status != Crashed
      ensures old(Tame(events) && !ForeignAt(t, disk.target)) && status == Failed ==>
        Smooth(events) && (oldMoved ==> OldAt(t, disk.previous)) && (newPublished ==> NewAt(t, disk.target))
    {
      oldMoved, newPublished := false, false;
      if prior.Some? {
        OldIsRenamable(t, disk, Target, Previous);
        oldMoved, status := Rename(prior.value, Target, Previous);
        if status != Completed {
          return;
        }
      }
      NewIsRenamable(t, disk, Staged, Target);
      newPublished, status := Rename(staged, Staged, Target);
    }

    /** Take the new image back out of the target: remove the public link of an interrupted hard-link
        move, or rename the image back. */
    method RollbackNewPublication(staged: Object) returns (status: Status)
      requires Valid() && Midway(t, disk) && OldParked(t, disk)
      requires staged == t.newImage
      modifies this
      ensures Valid() && Progress(2) && Midway(t, disk) && OldParked(t, disk)
      ensures old(Quiet(events)) && !old(ForeignAt(t, disk.target)) ==> !ForeignAt(t, disk.target)
      ensures status == Completed ==> NewAt(t, disk.staged) && disk.target == None
      ensures old(Smooth(events) && |events| >= 2) ==> status != Crashed
      ensures old(Smooth(events) && |events| >= 2) ==> (status == Completed <==> old(NewAt(t, disk.target)))
      ensures old(OldAt(t, disk.target)) ==> status == Failed && disk == old(disk)
    {
      SmoothIsTame(events);
      if disk.staged.None? {
        NewIsRenamable(t, disk, Target, Staged);
        var moved;
        moved, status := Rename(staged, Target, Staged);
        return;
      }
      // both names must still identify the retained object before the public one is removed
      if disk.staged.value.id != staged.id || disk.target.None? || disk.target.value.id != staged.id {
        return Failed;
      }
      CurrentInvariant();
      assert NewAt(t, disk.target);
      PublicLinkIsDeletable(t, disk);
      status := DeleteSlot(Target);
    }

    /** Undo a failed publication through the handles that performed it. */
    method RollbackLive(prior: Option<Object>, staged: Object, oldMoved: bool, newPublished: bool)
      returns (status: Status)
      requires Valid() && Midway(t, disk)
      requires prior == t.oldImage && staged == t.newImage
      requires !newPublished ==> NewAt(t, disk.staged) && !NewAt(t, disk.target)
      requires newPublished ==> OldParked(t, disk)
      requires t.oldImage.Some? && !oldMoved ==> OldAt(t, disk.target) && disk.previous == None
      modifies this
      ensures Valid() && Progress(4) && Midway(t, disk)
      ensures old(Quiet(events)) && !old(ForeignAt(t, disk.target)) ==> !ForeignAt(t, disk.target)
      ensures status == Completed ==> NotYetMoved(t, disk)
      ensures old(Smooth(events) && |events| >= 4) ==> status != Crashed
      ensures old(Smooth(events) && |events| >= 4) ==>
        (status == Completed <==> old(Undoable(t, disk, oldMoved, newPublished)))
      ensures old(OldAt(t, disk.target) && OldAt(t, disk.previous)) ==> disk == old(disk)
    {
      if newPublished {
        status := RollbackNewPublication(staged);
        if status != Completed {
          return;
        }
      }
      assert NewAt(t, disk.staged) && !NewAt(t, disk.target);
      status := Completed;
      if oldMoved {
        if prior.None? {
          return Failed;
        }
        OldIsRenamable(t, disk, Previous, Target);
        SmoothIsTame(events);
        var moved;
        moved, status := Rename(prior.value, Previous, Target);
      }
    }

    /** Delete the journal after a proven rollback, if it still is exactly `journal`. */
    method CleanupJournal(journal: Journal) returns (status: Status)
      requires Valid() && Prepared(t, disk) && NotYetMoved(t, disk) && !NewAt(t, disk.target)
      modifies this
      ensures Valid() && Progress(1) && NotYetMoved(t, disk)
      ensures old(Quiet(events)) && !old(ForeignAt(t, disk.target)) ==> !ForeignAt(t, disk.target)
      ensures disk.journal == None || Prepared(t, disk)
      ensures status == Completed ==> disk.journal == None
      ensures journal != t.record.value.journal ==> status == Failed && disk == old(disk)
      ensures old(Smooth(events) && |events| >= 1) && journal == t.record.value.journal ==> status == Completed
    {
      var current := ReadJournal();
      if current != Some(journal) {
        return Failed;
      }
      JournalIsDeletable(t, disk);
      status := DeleteJournal();
    }

    /** Behind the renames: write the receipt, then delete the previous image, then the journal. */
    method Commit(mode: PublishMode, journal: Journal, identity: FileIdentity) returns (status: Status)
      requires Valid() && Prepared(t, disk) && OldParked(t, disk) && Unreceipted(t, disk) && Published(t, disk)
      requires t.oldImage.None? ==> disk.previous == None
      requires t.record.value.receiptName == ReceiptName(session.sessionId, Receipt(mode, identity))
      requires journal == t.record.value.journal
      requires t.oldImage.Some? <==> journal.oldFile.Some?
      requires t.oldImage.Some? ==> Observe(session, t.oldImage.value) == journal.oldFile
      modifies this
      ensures Valid() && Progress(3)
      ensures (Unreceipted(t, disk) && disk == old(disk)) || Committing(t, disk)
      ensures status == Completed ==> Settled(t, disk, Committed) && Receipted(t, disk)
      ensures old(Smooth(events) && |events| >= 3) ==> status == Completed
      ensures old(Tame(events) && |events| >= 3) ==> status != Crashed
    {
      status := MarkCommitted(mode, identity);
      if status != Completed {
        return;
      }
      var current := ReadJournal();
      if current != Some(journal) {
        return Failed;
      }
      if journal.oldFile.Some? {
        if disk.previous.None? || Observe(session, disk.previous.value) != journal.oldFile {
          return Failed;
        }
        PreviousIsDeletable(t, disk);
        status := DeleteSlot(Previous);
        if status != Completed {
          return;
        }
      }
      assert disk.previous == None;
      JournalIsDeletable(t, disk);
      status := DeleteJournal();
    }

    /** Lock and check the image to be replaced, or check that a create target is absent. `None` is a
        refusal. */
    method LockOld(
      expectedOld: Option<FileExpectation>,
      prepared: Option<(Object, FileIdentity)>,
      staged: FileIdentity)
      returns (r: Option<(Option<Object>, Option<FileIdentity>)>)
      requires Valid() && AtTargetBefore(t, disk)
      requires expectedOld.None? <==> t.oldImage.None?
      requires prepared.Some? ==> t.oldImage == Some(prepared.value.0)
      requires Observe(session, t.newImage) == Some(staged)
      ensures r.Some? ==>
        && r.value.0 == t.oldImage
        && (t.oldImage.None? <==> r.value.1.None?)
        && (t.oldImage.Some? ==> Observe(session, t.oldImage.value) == r.value.1)
        && (t.oldImage.None? ==> disk.target == None)
      ensures r.Some? <==> OldMatches(t, expectedOld, prepared, staged) && (t.oldImage.None? ==> disk.target == None)
    {
      match (expectedOld, prepared) {
        case (Some(expectation), Some((file, identity))) =>
          if identity.expectation != expectation || Observe(session, file) != Some(identity)
            || identity.id.volume != staged.id.volume
          {
            return None;
          }
          return Some((Some(file), Some(identity)));
        case (Some(expectation), None) =>
          if disk.target.None? {
            return None;
          }
          var file := disk.target.value;
          var identity := Observe(session, file);
          if identity.None? || identity.value.expectation != expectation
            || identity.value.id.volume != staged.id.volume
            || identity.value.id == staged.id
          {
            return None;
          }
          return Some((Some(file), identity));
        case (None, None) =>
          return if disk.target.Some? then None else Some((None, None));
        case (None, Some(_)) =>
          return None;
      }
    }

    /** Publish the staged image as the target. `prepared` carries the locked handle of the old image
        and the identity observed when it was locked. */
    method Publish(
      mode: PublishMode,
      expectedOld: Option<FileExpectation>,
      expectedNew: FileExpectation,
      prepared: Option<(Object, FileIdentity)>)
      returns (end: Publication)
      requires Valid()
      requires mode == t.mode
      requires prepared.Some? ==> t.oldImage == Some(prepared.value.0)
      modifies this
      ensures Valid() && Progress(10)
      ensures old(Initial(t, disk)) ==> PublicationStop(t, disk)
      ensures old(Quiet(events) && Initial(t, disk) && !ForeignAt(t, disk.target)) ==> !ForeignAt(t, disk.target)
      ensures Leaves(t, disk, end)
      // compare and swap: a request that does not match, or a create target that exists, changes nothing
      ensures end == Declined ==> disk == old(disk)
      ensures !RequestMatches(t, expectedOld, expectedNew, prepared) ==> end == Declined
      ensures t.oldImage.None? && old(disk.target).Some? ==> end == Declined
      ensures old(Initial(t, disk)) && RequestMatches(t, expectedOld, expectedNew, prepared) && end == Declined ==>
        t.oldImage.None? && old(disk.target).Some?
      // an undone publication leaves everything as it was
      ensures old(Initial(t, disk)) && end == Undone ==> OnlyDrift(disk)
      // without faults it succeeds; with one, it succeeds or is undone, unless that fault is in writing the
      // journal, behind the moves, or between the two halves of linking the old image
      ensures (RequestMatches(t, expectedOld, expectedNew, prepared)
               && old(Initial(t, disk) && !ForeignAt(t, disk.target))) ==>
        && (old(Smooth(events) && |events| >= 8) ==> end == Succeeded)
        && (old(Tame(events) && |events| >= 10) ==>
              && end in {Succeeded, NotPrepared, Undone, Unproven, Unfinished}
              && (end == Unproven <==> OldLinkedTwice(t, disk)))
    {
      CurrentInvariant();
      MatchingRequest(expectedOld, expectedNew, prepared);
      if !ValidRequest(session, mode, expectedOld, expectedNew) {
        return Declined;
      }
      if disk.previous.Some? || disk.journal.Some? || disk.staged.None? {
        return Declined;
      }
      var staged := disk.staged.value;
      var stagedIdentity := Observe(session, staged);
      if stagedIdentity.None? || stagedIdentity.value.expectation != expectedNew
        || stagedIdentity.value.id.volume != session.volume
      {
        return Declined;
      }
      var locked := LockOld(expectedOld, prepared, stagedIdentity.value);
      if locked.None? {
        return Declined;
      }
      var prior := locked.value.0;
      var described := DescribeJournal(mode, locked.value.1, stagedIdentity.value);
      if described.None? {
        return Declined;
      }
      var (journal, text) := described.value;
      end := PublishPrepared(mode, prior, staged, journal, stagedIdentity.value, text);
    }

    lemma MatchingRequest(expectedOld: Option<FileExpectation>, expectedNew: FileExpectation,
                          prepared: Option<(Object, FileIdentity)>)
      requires Valid()
      ensures RequestMatches(t, expectedOld, expectedNew, prepared) ==>
        ValidRequest(session, t.mode, expectedOld, expectedNew) && Observe(session, t.newImage).Some?
    {
      if RequestMatches(t, expectedOld, expectedNew, prepared) {
        assert Described(t);
        MatchingRequestIsValid(t, expectedOld, expectedNew, prepared);
      }
    }

    /** The PREPARED journal of this publication; `None` when it exceeds the byte limit. */
    method DescribeJournal(mode: PublishMode, prior: Option<FileIdentity>, staged: FileIdentity)
      returns (r: Option<(Journal, string)>)
      requires Valid() && ValidNames(session) && mode == t.mode
      requires Observe(session, t.newImage) == Some(staged)
      requires t.oldImage.None? <==> prior.None?
      requires t.oldImage.Some? ==> Observe(session, t.oldImage.value) == prior
      ensures r.Some? ==> RecordIs(t, r.value.0, r.value.1, staged) && r.value.0.oldFile == prior
      ensures t.record.Some? ==> r.Some?
    {
      var journal := Journal(mode, session.sessionId, session.targetName, session.stagedExtension, prior, staged);
      var text := Encode(session.textDigest, journal);
      assert Described(t);
      if Utf8Length(text) > JOURNAL_MAX_BYTES {
        assert journal == JournalOf(t);
        return None;
      }
      RecordIsKnown(t, journal, staged);
      return Some((journal, text));
    }

    /** The part of `Publish` that changes the volume. */
    method PublishPrepared(
      mode: PublishMode,
      prior: Option<Object>,
      staged: Object,
      journal: Journal,
      stagedIdentity: FileIdentity,
      text: string)
      returns (end: Publication)
      requires Valid() && NotYetMoved(t, disk) && disk.journal == None && !NewAt(t, disk.target)
      requires mode == t.mode && RecordIs(t, journal, text, stagedIdentity) && journal == t.record.value.journal
      requires t.oldImage.Some? <==> journal.oldFile.Some?
      requires t.oldImage.Some? ==> Observe(session, t.oldImage.value) == journal.oldFile
      requires prior == t.oldImage && staged == t.newImage
      modifies this
      ensures Valid() && Progress(10)
      ensures PublicationStop(t, disk) && Leaves(t, disk, end) && end != Declined
      ensures old(Quiet(events)) && !old(ForeignAt(t, disk.target)) ==> !ForeignAt(t, disk.target)
      ensures old(Smooth(events) && |events| >= 8 && !ForeignAt(t, disk.target)) ==> end == Succeeded
      ensures old(Tame(events) && |events| >= 10 && !ForeignAt(t, disk.target)) ==>
        && end in {Succeeded, NotPrepared, Undone, Unproven, Unfinished}
        && (end == Unproven <==> OldLinkedTwice(t, disk))
    {
      var status := WriteJournal(text);
      WritingStops(t, old(disk), disk);
      if status != Completed {
        return if status == Crashed then Stopped else NotPrepared;
      }
      end := MoveAndCommit(mode, prior, staged, journal, stagedIdentity);
    }

    /** Behind the durable journal: move both images, and commit, or undo what was moved. */
    method MoveAndCommit(
      mode: PublishMode,
      prior: Option<Object>,
      staged: Object,
      journal: Journal,
      stagedIdentity: FileIdentity)
      returns (end: Publication)
      requires Valid() && Prepared(t, disk) && NotYetMoved(t, disk) && !NewAt(t, disk.target)
      requires mode == t.mode && journal == t.record.value.journal
      requires t.record.value.receiptName == ReceiptName(session.sessionId, Receipt(mode, stagedIdentity))
      requires t.oldImage.Some? <==> journal.oldFile.Some?
      requires t.oldImage.Some? ==> Observe(session, t.oldImage.value) == journal.oldFile
      requires prior == t.oldImage && staged == t.newImage
      modifies this
      ensures Valid() && Progress(9)
      ensures PublicationStop(t, disk) && Leaves(t, disk, end) && end != Declined && end != NotPrepared
      ensures old(Quiet(events)) && !old(ForeignAt(t, disk.target)) ==> !ForeignAt(t, disk.target)
      ensures old(Smooth(events) && |events| >= 7 && !ForeignAt(t, disk.target)) ==> end == Succeeded
      ensures old(Tame(events) && |events| >= 9 && !ForeignAt(t, disk.target)) ==>
        && end in {Succeeded, Undone, Unproven, Unfinished}
        && (end == Unproven <==> OldLinkedTwice(t, disk))
    {
      var oldMoved, newPublished, status := MoveImages(prior, staged);
      if status == Crashed {
        return Stopped;
      }
      if status == Failed {
        end := Undo(prior, staged, oldMoved, newPublished, journal);
        return;
      }
      status := Commit(mode, journal, stagedIdentity);
      return match status case Completed => Succeeded case Failed => Unfinished case Crashed => Stopped;
    }

    /** Undo a failed publication and remove its journal. */
    method Undo(prior: Option<Object>, staged: Object, oldMoved: bool, newPublished: bool, journal: Journal)
      returns (end: Publication)
      requires Valid() && Midway(t, disk) && journal == t.record.value.journal
      requires prior == t.oldImage && staged == t.newImage
      requires !newPublished ==> NewAt(t, disk.staged) && !NewAt(t, disk.target)
      requires newPublished ==> OldParked(t, disk)
      requires t.oldImage.Some? && !oldMoved ==> OldAt(t, disk.target) && disk.previous == None
      modifies this
      ensures Valid() && Progress(5)
      ensures PublicationStop(t, disk) && Leaves(t, disk, end)
      ensures end in {Undone, UndoneKeepingJournal, Unproven, Stopped}
      ensures old(Quiet(events)) && !old(ForeignAt(t, disk.target)) ==> !ForeignAt(t, disk.target)
      ensures old(Smooth(events) && |events| >= 5) ==>
        end == if old(Undoable(t, disk, oldMoved, newPublished)) then Undone else Unproven
      ensures old(OldLinkedTwice(t, disk)) ==> OldLinkedTwice(t, disk)
      ensures end == Undone ==> !OldLinkedTwice(t, disk)
    {
      var status := RollbackLive(prior, staged, oldMoved, newPublished);
      if status != Completed {
        return if status == Crashed then Stopped else Unproven;
      }
      status := CleanupJournal(journal);
      return match status case Completed => Undone case Failed => UndoneKeepingJournal case Crashed => Stopped;
    }

    // -------------------------------------------------------------------------------------------
    // Recovery
    // -------------------------------------------------------------------------------------------

    /** Put the target back as it was before publication, from the classified slots. */
    method RestoreTarget(target: Slot, previous: Slot, staged: Slot) returns (status: Status)
      requires Valid() && Prepared(t, disk) && Unreceipted(t, disk) && NewAt(t, disk.staged)
      requires NewAt(t, disk.target) ==> OldParked(t, disk)
      requires disk.target == None || OldAt(t, disk.target) || NewAt(t, disk.target)
      requires ClassifiedAs(t, disk.target, target)
      requires ClassifiedAs(t, disk.previous, previous)
      requires ClassifiedAs(t, disk.staged, staged)
      requires OldAt(t, disk.previous) || disk.previous == None
      requires OldAt(t, disk.target) ==> disk.previous == None
      modifies this
      ensures Valid() && Progress(3)
      ensures disk.journal == old(disk.journal) && disk.directory == old(disk.directory)
      ensures disk.staged == old(disk.staged)
      ensures status == Completed ==> disk.previous == None
      ensures status == Completed && old(disk.previous).Some? ==> OldAt(t, disk.target)
      ensures status == Completed && old(disk.previous).None? && old(OldAt(t, disk.target)) ==>
          disk.target == old(disk.target)
      ensures status == Completed && old(disk.previous).None? && old(!OldAt(t, disk.target)) ==>
        disk.target == None || (ForeignAt(t, disk.target) && !old(Quiet(events)))
      ensures old(Smooth(events) && |events| >= 3) ==> status == Completed
    {
      var publicSlot := target;
      status := Completed;
      if DuplicateLinks(target, staged) {
        PublicLinkIsDeletable(t, disk);
        status := DeleteSlot(Target);
        if status != Completed {
          return;
        }
        publicSlot := Missing;
      }
      if publicSlot == Missing && previous == Old {
        OldIsRenamable(t, disk, Previous, Target);
        var moved;
        moved, status := Rename(disk.previous.value, Previous, Target);
      }
    }

    /** Undo what the slots show of an uncommitted publication, up to the journal. */
    method RollBackSlots(target: Slot, previous: Slot, staged: Slot) returns (status: Status)
      requires Valid() && Prepared(t, disk) && Decision(t, disk) == Some(RolledBack)
      requires ClassifiedAs(t, disk.target, target)
      requires ClassifiedAs(t, disk.previous, previous)
      requires ClassifiedAs(t, disk.staged, staged)
      modifies this
      ensures Valid() && Progress(4)
      ensures disk.journal == old(disk.journal) && disk.directory == old(disk.directory)
      ensures status == Completed ==> disk.previous == None && disk.staged == None
      ensures status == Completed && t.oldImage.Some? ==> OldAt(t, disk.target)
      ensures status == Completed && t.oldImage.None? ==>
        disk.target == None || (ForeignAt(t, disk.target) && !old(Quiet(events)))
      ensures old(Smooth(events) && |events| >= 4) ==> status == Completed
    {
      CurrentRollback();
      status := RestoreTarget(target, previous, staged);
      if status != Completed {
        return;
      }
      StagedIsDeletable(t, disk);
      status := DeleteSlot(Staged);
    }

    /** The three shapes that recovery rolls back. */
    lemma CurrentRollback()
      requires Valid() && Prepared(t, disk) && Decision(t, disk) == Some(RolledBack)
      ensures Invariant(t, disk)
      ensures NewAt(t, disk.staged) && Unreceipted(t, disk)
      ensures disk.target == None || OldAt(t, disk.target) || NewAt(t, disk.target)
      ensures NewAt(t, disk.target) ==> OldParked(t, disk)
      ensures OldAt(t, disk.target) ==> disk.previous == None
      ensures t.oldImage.None? ==> disk.previous == None && (disk.target == None || NewAt(t, disk.target))
      ensures t.oldImage.Some? ==> OldAt(t, disk.target) || OldAt(t, disk.previous)
    {
      CurrentInvariant();
      assert Described(t);
      RollbackSlotsAre(t, disk);
    }

    /** Read the journal, classify the slots and decide; `None` is a refusal. */
    method Diagnose(requested: Option<PublishMode>) returns (r: Option<(RecoveryOutcome, Slot, Slot, Slot)>)
      requires Valid()
      ensures r.None? <==> RefusesRecovery(t, disk, requested)
      ensures r.Some? ==>
        && Decision(t, disk) == Some(r.value.0)
        && ClassifiedAs(t, disk.target, r.value.1)
        && ClassifiedAs(t, disk.previous, r.value.2)
        && ClassifiedAs(t, disk.staged, r.value.3)
    {
      CurrentInvariant();
      var read := ReadJournal();
      if read.None? {
        return None;
      }
      var journal := read.value;
      assert Prepared(t, disk);
      RecordNamesTheSession();
      if journal.sessionId != session.sessionId || journal.targetName != session.targetName
        || journal.stagedExtension != session.stagedExtension
      {
        return None;
      }
      if requested.Some? && journal.mode != requested.value {
        return None;
      }
      var target := Classify(session, disk.target, journal.oldFile, journal.newFile);
      var previous := Classify(session, disk.previous, journal.oldFile, journal.newFile);
      var staged := Classify(session, disk.staged, journal.oldFile, journal.newFile);
      if target.None? || previous.None? || staged.None? {
        return None;
      }
      var outcome := Decide(target.value, previous.value, staged.value, journal.mode);
      if outcome.None? {
        return None;
      }
      CurrentSlots();
      return Some((outcome.value, target.value, previous.value, staged.value));
    }

    lemma RecordNamesTheSession()
      requires Valid() && t.record.Some?
      ensures t.record.value.journal.sessionId == session.sessionId
      ensures t.record.value.journal.targetName == session.targetName
      ensures t.record.value.journal.stagedExtension == session.stagedExtension
      ensures t.record.value.journal.mode == t.mode
    {
      assert Described(t);
    }

    lemma CurrentSlots()
      requires Valid() && t.record.Some?
      ensures var j := t.record.value.journal;
              && SlotIsExact(Classify(session, disk.target, j.oldFile, j.newFile), disk.target)
              && SlotIsExact(Classify(session, disk.previous, j.oldFile, j.newFile), disk.previous)
              && SlotIsExact(Classify(session, disk.staged, j.oldFile, j.newFile), disk.staged)
    {
      CurrentInvariant();
      assert Described(t);
      ClassifyIsExact(t, disk.target);
      ClassifyIsExact(t, disk.previous);
      ClassifyIsExact(t, disk.staged);
    }

    ghost predicate SlotIsExact(c: Option<Slot>, slot: Option<Object>) {
      c.Some? ==> ClassifiedAs(t, slot, c.value)
    }

    /** Recover a session that carries a journal, from what its slots hold. */
    method RecoverPrepared(requested: Option<PublishMode>) returns (r: Recovery)
      requires Valid()
      modifies this
      ensures Valid() && Progress(5)
      ensures r == Refused <==> old(RefusesRecovery(t, disk, requested))
      ensures r == Refused ==> disk == old(disk) && run == old(run)
      ensures r.Recovered? ==>
        && Some(r.outcome) == old(DecisionOrNone(t, disk))
        && (Settled(t, disk, r.outcome) || (!old(Quiet(events)) && LostToForeign(t, disk, r.outcome)))
      ensures old(DecisionOrNone(t, disk)) == Some(Committed) ==> disk.target == old(disk.target)
      ensures disk.directory == old(disk.directory)
      ensures old(Smooth(events) && |events| >= 5) && r != Refused ==> r.Recovered?
    {
      var diagnosis := Diagnose(requested);
      if diagnosis.None? {
        return Refused;
      }
      var (outcome, target, previous, staged) := diagnosis.value;
      CurrentInvariant();
      var status := Completed;
      match outcome {
        case Committed =>
          CurrentCommit();
          if previous == Old {
            PreviousIsDeletable(t, disk);
            status := DeleteSlot(Previous);
          }
        case RolledBack =>
          status := RollBackSlots(target, previous, staged);
      }
      if status != Completed {
        return Interrupted;
      }
      JournalIsDeletable(t, disk);
      status := DeleteJournal();
      if status != Completed {
        return Interrupted;
      }
      return Recovered(outcome);
    }

    lemma CurrentCommit()
      requires Valid() && Prepared(t, disk) && Decision(t, disk) == Some(Committed)
      ensures Published(t, disk)
    {
      CurrentInvariant();
      assert Described(t);
      CommitsExactly(t, disk);
    }

    /** Recover a session that never reached PREPARED: the staged image may go, nothing else. */
    method RollbackUnprepared(mode: PublishMode) returns (r: Recovery)
      requires Valid() && disk.journal == None && Unreceipted(t, disk)
      modifies this
      ensures Valid() && Progress(1)
      ensures r == Refused ==> disk == old(disk) && run == old(run)
      ensures OnlyDrift(disk.(staged := old(disk.staged))) && (disk.staged == None || disk.staged == old(disk.staged))
      ensures r.Recovered? ==> r.outcome == RolledBack && disk.staged == None
      ensures r == Refused <==> old(RefusesUnprepared(t, disk, mode))
      ensures old(disk.staged) == None ==> disk == old(disk) && r != Interrupted
      ensures old(Smooth(events) && |events| >= 1) && r != Refused ==> r.Recovered?
    {
      CurrentInvariant();
      if !ValidNames(session) {
        return Refused;
      }
      if mode == Create {
        if disk.target.Some? {
          return Refused;
        }
      } else {
        if disk.target.None? {
          return Refused;
        }
        var identity := Observe(session, disk.target.value);
        if identity.None? || identity.value.id.volume != session.volume {
          return Refused;
        }
      }
      if disk.previous.Some? {
        return Refused;
      }
      if disk.staged.Some? {
        if disk.staged.value.id.volume != session.volume {
          return Refused;
        }
        StagedIsDeletable(t, disk);
        var status := DeleteSlot(Staged);
        if status != Completed {
          return Interrupted;
        }
      }
      return Recovered(RolledBack);
    }

    /** Answer for a committed session whose journal is already gone, from its receipt. */
    method ConfirmReceipt(mode: PublishMode, receipt: Receipt) returns (r: Recovery)
      requires Valid() && disk.journal == None && Receipted(t, disk)
      requires Observe(session, t.newImage) == Some(receipt.identity) && receipt.mode == t.mode
      ensures r == if mode == t.mode then Recovered(Committed) else Refused
    {
      if receipt.mode != mode {
        return Refused;
      }
      CurrentInvariant();
      assert Published(t, disk);
      var target := Classify(session, disk.target, None, receipt.identity);
      if target != Some(New) || disk.previous.Some? || disk.staged.Some? {
        return Refused;
      }
      return Recovered(Committed);
    }

    /** Recover one session for the requested kind of publication. */
    method Recover(mode: PublishMode) returns (r: Recovery)
      requires Valid()
      modifies this
      ensures Valid() && Progress(5)
      ensures r == Refused ==> disk == old(disk) && run == old(run)
      ensures disk.directory == old(disk.directory)
      // the whole call, for every disk that any run can leave
      ensures Recovers(t, old(disk), mode, old(events), r, disk)
      // crash atomicity, exactly
      ensures old(PublicationStop(t, disk) && !ForeignAt(t, disk.target)) && mode == t.mode ==>
        (r == Refused <==> old(TornJournal(t, disk) || OldLinkedTwice(t, disk) || Unaddressable(t, disk)))
      ensures (old(PublicationStop(t, disk) && !ForeignAt(t, disk.target) && Quiet(events))
               && r.Recovered? && mode == t.mode) ==>
        && r.outcome == (if old(Published(t, disk)) then Committed else RolledBack)
        && Settled(t, disk, r.outcome)
    {
      CurrentInvariant();
      if disk.journal.Some? {
        StopDecision();
        r := RecoverPrepared(Some(mode));
        return;
      }
      var receipt := ReadReceipt();
      if receipt.Failure? {
        return Refused;
      }
      if receipt.value.Some? {
        r := ConfirmReceipt(mode, receipt.value.value);
      } else {
        r := RollbackUnprepared(mode);
        CurrentInvariant();
      }
    }

    /** What recovery decides on a stopped publication that carries a journal. */
    lemma StopDecision()
      requires Valid() && disk.journal.Some?
      ensures Receipted(t, disk) ==> Prepared(t, disk) && Decision(t, disk) == Some(Committed)
      ensures Prepared(t, disk) || TornJournal(t, disk)
      ensures Prepared(t, disk) ==>
        && !TornJournal(t, disk)
        && (Decision(t, disk) == None <==> RefusesPrepared(t, disk))
        && (Decision(t, disk) == Some(Committed) <==> Published(t, disk))
      ensures PublicationStop(t, disk) && !ForeignAt(t, disk.target) && Prepared(t, disk) ==>
        && (Decision(t, disk) == None <==> OldAt(t, disk.target) && OldAt(t, disk.previous))
        && (Decision(t, disk) == Some(Committed) <==> Published(t, disk))
    {
      CurrentInvariant();
      assert Described(t);
      if Prepared(t, disk) {
        TornIsNotPrepared(t, disk);
        CommitsExactly(t, disk);
        RefusesExactly(t, disk);
        if PublicationStop(t, disk) && !ForeignAt(t, disk.target) {
          StoppedPublicationIsDecided(t, disk);
        }
      }
    }

    /** Crash atomicity end to end: publish under any script without foreign files, stopping wherever
        that script stops, then recover undisturbed. `stopped` is the disk in between. */
    method PublishThenRecover(
      expectedOld: Option<FileExpectation>,
      expectedNew: FileExpectation,
      prepared: Option<(Object, FileIdentity)>,
      mode: PublishMode,
      recoveryEvents: seq<Event>)
      returns (published: Publication, r: Recovery, ghost stopped: Disk)
      requires Valid() && Initial(t, disk) && Quiet(events) && !ForeignAt(t, disk.target)
      requires mode == t.mode
      requires prepared.Some? ==> t.oldImage == Some(prepared.value.0)
      requires Smooth(recoveryEvents) && |recoveryEvents| >= 5 && ForeignOnly(t, recoveryEvents)
      modifies this
      ensures Valid() && old(run) <= run
      // what publishing did
      ensures PublicationStop(t, stopped) && Leaves(t, stopped, published)
      ensures published == Declined <==> !RequestMatches(t, expectedOld, expectedNew, prepared)
      ensures published == Declined || published == Undone ==> stopped == old(disk)
      ensures RequestMatches(t, expectedOld, expectedNew, prepared) && old(Smooth(events) && |events| >= 8) ==>
        published == Succeeded
      // and what recovery made of it
      ensures r == if TornJournal(t, stopped) || OldLinkedTwice(t, stopped) || Unaddressable(t, stopped) then Refused
                   else Recovered(if Published(t, stopped) then Committed else RolledBack)
      ensures r.Recovered? ==> Settled(t, disk, r.outcome)
      ensures r == Refused ==> disk == stopped && disk.target == old(disk.target)
      ensures published == Succeeded ==> r == Recovered(Committed)
    {
      published := Publish(mode, expectedOld, expectedNew, prepared);
      stopped := disk;
      Restart(recoveryEvents);
      r := Recover(mode);
    }

    /** Between two calls someone may create a file at an empty target. */
    method Idle(foreign: Option<Object>)
      requires Valid() && (foreign.Some? ==> Foreign(t, foreign.value))
      modifies this
      ensures Valid() && old(run) <= run && events == old(events)
      ensures disk == old(Arrive(disk, foreign))
    {
      var arrived := Arrive(disk, foreign);
      if arrived != disk {
        Apply(arrived);
      }
    }

    /** Recover any number of times. */
    method RecoverRepeatedly(calls: seq<Call>)
      returns (answers: seq<Recovery>, ghost found: seq<Disk>, ghost left: seq<Disk>)
      requires Valid() && forall i :: 0 <= i < |calls| ==> ForeignCall(t, calls[i])
      modifies this
      ensures Valid() && old(run) <= run
      ensures RecoveryChain(t, old(disk), calls, answers, found, left)
      ensures disk == if calls == [] then old(disk) else left[|calls| - 1]
    {
      answers, found, left := [], [], [];
      for n := 0 to |calls|
        invariant Valid() && old(run) <= run
        invariant RecoveryChain(t, old(disk), calls[..n], answers, found, left)
        invariant disk == if n == 0 then old(disk) else left[n - 1]
      {
        assert ForeignCall(t, calls[n]);
        Idle(calls[n].foreign);
        Restart(calls[n].events);
        found := found + [disk];
        CurrentInvariant();
        var answer := Recover(calls[n].mode);
        ChainGrows(t, old(disk), calls[..n], answers, found, left, calls[n], answer, disk);
        assert calls[..n + 1] == calls[..n] + [calls[n]];
        answers, left := answers + [answer], left + [disk];
      }
      assert calls[..|calls|] == calls;
    }
  }

  // ---------------------------------------------------------------------------------------------
  // Requests that match
  // ---------------------------------------------------------------------------------------------

  /** An image on the session's volume that can be observed, with the expected length and digest. */
  predicate Expected(session: Session, o: Object, e: FileExpectation) {
    && 0 < |o.bytes| <= U64_MAX && o.id.index != 0 && o.id.volume == session.volume
    && e.length == |o.bytes| && e.sha256 == session.imageDigest(o.bytes)
  }

  /** The requests that publication has no reason to refuse, for target names of at most 500 characters: valid
      names, the expected new image, and the expected old image or none for a create. */
  lemma RequestMatchesExactly(t: Transaction, expectedOld: Option<FileExpectation>, expectedNew: FileExpectation,
                              prepared: Option<(Object, FileIdentity)>)
    requires WellFormed(t) && Described(t) && ValidSessionId(t.session.sessionId)
    requires |t.session.targetName| <= 500
    ensures RequestMatches(t, expectedOld, expectedNew, prepared) <==>
      && ValidComponent(t.session.targetName)
      && (t.session.stagedExtension == "wim" || t.session.stagedExtension == "esd")
      && (exists base, extension :: EndsWithExtension(t.session.targetName, base, extension)
                                    && EqualButCase(extension, t.session.stagedExtension))
      && Expected(t.session, t.newImage, expectedNew)
      && (if t.mode == Create then expectedOld == None && prepared == None
          else expectedOld.Some? && Expected(t.session, t.oldImage.value, expectedOld.value)
               && (prepared.Some? ==> prepared.value.1 == FileIdentity(t.oldImage.value.id, expectedOld.value)))
  {
    ValidExtensionExactly(t.session.stagedExtension);
    MatchingExtensionExactly(t.session.targetName, t.session.stagedExtension);
    if Observable(t) && ValidJournal(JournalOf(t)) {
      JournalFits(t.session.textDigest, JournalOf(t));
    }
  }

  /** On a quiet volume without faults, a matching request is published. */
  method PublishMatching(
    session: Session,
    mode: PublishMode,
    oldImage: Option<Object>,
    newImage: Object,
    expectedOld: Option<FileExpectation>,
    expectedNew: FileExpectation,
    events: seq<Event>)
    returns (end: Publication, volume: BackupVolume)
    requires ValidSessionId(session.sessionId) && ValidNames(session) && |session.targetName| <= 500
    requires Expected(session, newImage, expectedNew)
    requires mode == Create <==> oldImage.None?
    requires oldImage.Some? <==> expectedOld.Some?
    requires oldImage.Some? ==>
      Expected(session, oldImage.value, expectedOld.value) && oldImage.value.id != newImage.id
    requires Smooth(events) && |events| >= 8
    ensures fresh(volume) && end == Succeeded
    ensures volume.disk == Disk(Some(newImage), None, None, None,
      Renamed(ReceiptName(session.sessionId, Receipt(mode, FileIdentity(newImage.id, expectedNew)))))
  {
    ghost var undescribed := Transaction(session, mode, oldImage, newImage, None);
    ghost var t := undescribed.(record := if Journalled(undescribed) then Some(RecordOf(undescribed)) else None);
    assert Described(t);
    ValidExtensionExactly(session.stagedExtension);
    MatchingExtensionExactly(session.targetName, session.stagedExtension);
    RequestMatchesExactly(t, expectedOld, expectedNew, None);
    volume := new BackupVolume(t, session, Disk(oldImage, None, Some(newImage), None, Created), events);
    end := volume.Publish(mode, expectedOld, expectedNew, None);
  }

  lemma BackupWimIsComponent()
    ensures ValidComponent("backup.wim")
  {
    LongStemIsNoDevice("backup.wim");
    ValidComponentExactly("backup.wim");
  }

  lemma BackupWimIsValid()
    ensures ValidComponent("backup.wim") && ValidExtension("wim") && MatchingExtension("backup.wim", "wim")
  {
    BackupWimIsComponent();
    ValidExtensionExactly("wim");
    assert "backup" + "." + "wim" == "backup.wim";
    MatchingExtensionIs("backup", "wim", "wim");
  }

  /** On a quiet volume without faults, every new image that can be observed there is published as
      "backup.wim". */
  method PublishBackupWim(session: Session, newImage: Object, events: seq<Event>)
    returns (end: Publication, volume: BackupVolume)
    requires session.targetName == "backup.wim" && session.stagedExtension == "wim"
    requires ValidSessionId(session.sessionId)
    requires 0 < |newImage.bytes| <= U64_MAX && newImage.id.index != 0 && newImage.id.volume == session.volume
    requires Smooth(events) && |events| >= 8
    ensures fresh(volume) && end == Succeeded
    ensures volume.disk.target == Some(newImage) && volume.disk.staged == None && volume.disk.journal == None
  {
    BackupWimIsValid();
    var expectation := FileExpectation(|newImage.bytes|, session.imageDigest(newImage.bytes));
    end, volume := PublishMatching(session, Create, None, newImage, None, expectation, events);
  }

  // ---------------------------------------------------------------------------------------------
  // Recovery called again
  // ---------------------------------------------------------------------------------------------

  /** A call of recovery, and a file that someone creates at an empty target before it. */
  datatype Call = Call(mode: PublishMode, events: seq<Event>, foreign: Option<Object>)

  ghost predicate ForeignCall(t: Transaction, c: Call) {
    ForeignOnly(t, c.events) && (c.foreign.Some? ==> Foreign(t, c.foreign.value))
  }

  /** A sequence of recovery calls, each on the disk its predecessor left. */
  ghost predicate RecoveryChain(t: Transaction, start: Disk, calls: seq<Call>, answers: seq<Recovery>,
                                found: seq<Disk>, left: seq<Disk>)
  {
    && |answers| == |found| == |left| == |calls|
    && forall i :: 0 <= i < |calls| ==> ChainLink(t, start, calls, answers, found, left, i)
  }

  ghost predicate ChainLink(t: Transaction, start: Disk, calls: seq<Call>, answers: seq<Recovery>,
                            found: seq<Disk>, left: seq<Disk>, i: nat)
    requires i < |answers| == |found| == |left| == |calls|
  {
    && ForeignCall(t, calls[i])
    && found[i] == Arrive(if i == 0 then start else left[i - 1], calls[i].foreign)
    && Invariant(t, found[i])
    && Recovers(t, found[i], calls[i].mode, calls[i].events, answers[i], left[i])
  }

  lemma ChainGrows(t: Transaction, start: Disk, calls: seq<Call>, answers: seq<Recovery>, found: seq<Disk>,
                   left: seq<Disk>, call: Call, answer: Recovery, behind: Disk)
    requires |found| == |calls| + 1 && RecoveryChain(t, start, calls, answers, found[..|calls|], left)
    requires ForeignCall(t, call)
    requires found[|calls|] == Arrive(if calls == [] then start else left[|calls| - 1], call.foreign)
    requires Invariant(t, found[|calls|]) && Recovers(t, found[|calls|], call.mode, call.events, answer, behind)
    ensures RecoveryChain(t, start, calls + [call], answers + [answer], found, left + [behind])
  {
    forall i | 0 <= i <= |calls|
      ensures ChainLink(t, start, calls + [call], answers + [answer], found, left + [behind], i)
    {
      if i < |calls| { assert ChainLink(t, start, calls, answers, found[..|calls|], left, i); }
    }
  }

  /** Behind a finished call, no later call of the chain, whatever it is asked and however it ends, changes
      anything; only a foreign file may appear at an empty target in between. */
  lemma {:induction false} FinishedIsStable(t: Transaction, start: Disk, calls: seq<Call>, answers: seq<Recovery>,
                                            found: seq<Disk>, left: seq<Disk>, i: nat, j: nat)
    requires RecoveryChain(t, start, calls, answers, found, left) && i <= j < |calls| && answers[i].Recovered?
    ensures left[j].journal == None && left[j].staged == None && left[j].previous == None
    ensures SameTarget(t, left[i].target, left[j].target)
    ensures left[j] == left[i].(target := left[j].target)
    ensures i < j ==> left[j] == found[j] && answers[j] != Interrupted
  {
    assert ChainLink(t, start, calls, answers, found, left, j);
    if i < j {
      FinishedIsStable(t, start, calls, answers, found, left, i, j - 1);
    }
  }

  /** What every later call answers behind a finished one: with a receipt, Committed; without one, refused
      exactly by the state of the target, and otherwise RolledBack, even behind Committed. */
  lemma AnswersBehindFinished(t: Transaction, start: Disk, calls: seq<Call>, answers: seq<Recovery>,
                              found: seq<Disk>, left: seq<Disk>, i: nat, j: nat)
    requires RecoveryChain(t, start, calls, answers, found, left) && i < j < |calls| && answers[i].Recovered?
    ensures answers[j] ==
      if Receipted(t, left[i]) then if calls[j].mode == t.mode then Recovered(Committed) else Refused
      else if RefusesUnprepared(t, found[j], calls[j].mode) then Refused
      else Recovered(RolledBack)
  {
    FinishedIsStable(t, start, calls, answers, found, left, i, j);
    assert ChainLink(t, start, calls, answers, found, left, j);
  }

  /** Without a receipt, Committed is answered once: a create is refused from then on, and a replace or append
      answers RolledBack, or is refused when the new image is not on the session's volume. The new image stays
      at the target. */
  lemma CommittedIsAnsweredOnce(t: Transaction, start: Disk, calls: seq<Call>, answers: seq<Recovery>,
                                found: seq<Disk>, left: seq<Disk>, i: nat, j: nat)
    requires WellFormed(t) && Described(t)
    requires RecoveryChain(t, start, calls, answers, found, left) && i < j < |calls|
    requires answers[i] == Recovered(Committed) && Unreceipted(t, left[i]) && calls[j].mode == t.mode
    ensures answers[j] ==
      if t.mode == Create || t.newImage.id.volume != t.session.volume then Refused else Recovered(RolledBack)
    ensures NewAt(t, left[j].target)
  {
    FinishedIsStable(t, start, calls, answers, found, left, i, j);
    AnswersBehindFinished(t, start, calls, answers, found, left, i, j);
    assert ChainLink(t, start, calls, answers, found, left, i);
    assert ChainLink(t, start, calls, answers, found, left, j);
  }

  /** From every initial disk of a create whose target is empty, a legal run ends behind a recovery that
      answered Committed without a receipt, and every further create recovery refuses. */
  lemma CommittedCreateIsRefusedLater(t: Transaction, d: Disk) returns (run: seq<Disk>)
    requires WellFormed(t) && Described(t) && t.record.Some? && t.oldImage.None? && Initial(t, d) && d.target == None
    ensures LegalRun(t, run) && |run| == 4 && run[0] == d
    ensures RefusesCall(t, run[3], Create) && !RefusesCall(t, run[2], Create) && AnswerTo(t, run[2]) == Committed
    ensures run[2].journal.Some? && run[3] == run[2].(journal := None) && Settled(t, run[3], Committed)
  {
    var written := d.(journal := Some(Utf8(t.record.value.journalText)));
    var moved := written.(target := Some(t.newImage), staged := None);
    var dropped := moved.(journal := None);
    assert JournalWritten(t, d, written) && NewMoves(t, written, moved) && JournalDropped(t, moved, dropped);
    ThreeStateRun(t, d, written, moved);
    ExtendRun(t, [d, written, moved], dropped);
    run := [d, written, moved] + [dropped];
  }

  lemma CommittedReplaceRun(t: Transaction, d: Disk) returns (run: seq<Disk>)
    requires WellFormed(t) && t.record.Some? && t.oldImage.Some? && Initial(t, d)
    ensures LegalRun(t, run) && |run| == 6 && run[0] == d
    ensures Prepared(t, run[3]) && Published(t, run[3]) && OldAt(t, run[3].previous) && Unreceipted(t, run[3])
    ensures run[5] == run[3].(previous := None, journal := None)
  {
    var written := d.(journal := Some(Utf8(t.record.value.journalText)));
    var parked := written.(target := None, previous := t.oldImage);
    var moved := parked.(target := Some(t.newImage), staged := None);
    var alone := moved.(previous := None);
    var dropped := alone.(journal := None);
    assert JournalWritten(t, d, written) && OldMoves(t, written, parked);
    ThreeStateRun(t, d, written, parked);
    assert Step(t, parked, moved) by { assert NewMoves(t, parked, moved); }
    ExtendRun(t, [d, written, parked], moved);
    assert Step(t, moved, alone) by { assert PreviousDropped(t, moved, alone); }
    ExtendRun(t, [d, written, parked] + [moved], alone);
    assert Step(t, alone, dropped) by { assert JournalDropped(t, alone, dropped); }
    ExtendRun(t, [d, written, parked] + [moved] + [alone], dropped);
    run := [d, written, parked] + [moved] + [alone] + [dropped];
  }

  /** From every initial disk of a replace or append, a legal run ends behind a recovery that answered
      Committed without a receipt, and every further recovery that is not refused answers RolledBack. */
  lemma CommittedReplaceIsRolledBackLater(t: Transaction, d: Disk) returns (run: seq<Disk>)
    requires WellFormed(t) && Described(t) && t.record.Some? && t.oldImage.Some? && Initial(t, d)
    ensures LegalRun(t, run) && |run| == 6 && run[0] == d
    ensures AnswerTo(t, run[3]) == Committed && !RefusesCall(t, run[3], t.mode)
    ensures run[3].journal.Some? && run[5] == run[3].(previous := None, journal := None)
    ensures Settled(t, run[5], Committed) && AnswerTo(t, run[5]) == RolledBack
    ensures RefusesCall(t, run[5], t.mode) <==> t.newImage.id.volume != t.session.volume
  {
    run := CommittedReplaceRun(t, d);
  }
}
