/** The publication protocol as a transition system over the durable state of one session. Every
    durable effect of publishing, rolling back and recovering is one step, and so is a foreign file
    that appears at an empty target. What is proved of all runs here is proved of the code in
    PublishVolume, whose every effect is shown to be one of these steps. */
module PublishProtocol {
  import opened Wrappers
  import opened MachineIntegers
  import opened PublishJournal

  /** A file object; two names of one object are hard links. */
  datatype Object = Object(id: FileId, bytes: seq<byte>)

  /** The content of a control file: text, or bytes that are not UTF-8. */
  datatype FileText = Utf8(text: string) | NotUtf8

  /** The private directory's name: the one it was created with, or a receipt. A created name never
      reads as a receipt (PublishJournal.UncommittedNameHasNoReceipt). */
  datatype DirectoryName = Created | Renamed(name: string)

  datatype SlotName = Target | Previous | Staged

  datatype Disk = Disk(
    target: Option<Object>,
    previous: Option<Object>,
    staged: Option<Object>,
    journal: Option<FileText>,
    directory: DirectoryName)
  {
    function Get(s: SlotName): Option<Object> {
      match s
      case Target => target
      case Previous => previous
      case Staged => staged
    }

    function Put(s: SlotName, o: Option<Object>): (d: Disk)
      ensures d.Get(s) == o && d.journal == journal && d.directory == directory
      ensures forall other :: other != s ==> d.Get(other) == Get(other)
    {
      match s
      case Target => this.(target := o)
      case Previous => this.(previous := o)
      case Staged => this.(staged := o)
    }
  }

  /** What a session fixes: its identifier, the request it serves, the target volume, and SHA-256 over
      images and over text. */
  datatype Session = Session(
    sessionId: string,
    targetName: string,
    stagedExtension: string,
    volume: u32,
    imageDigest: seq<byte> -> Digest,
    textDigest: string -> Digest)

  /** The texts one publication leaves on disk. */
  datatype Record = Record(journal: Journal, journalText: string, receiptName: string)

  /** One publication: the image to be replaced, if any, the completed staged image, and the texts
      that describe them when they can be described. */
  datatype Transaction = Transaction(
    session: Session,
    mode: PublishMode,
    oldImage: Option<Object>,
    newImage: Object,
    record: Option<Record>)

  /** Length and SHA-256 of an object together with its file id; `None` for an object that cannot be
      observed because it is empty, too long, or has no stable id. */
  function Observe(session: Session, o: Object): Option<FileIdentity> {
    if |o.bytes| == 0 || |o.bytes| > U64_MAX || o.id.index == 0 then None
    else Some(FileIdentity(o.id, FileExpectation(|o.bytes|, session.imageDigest(o.bytes))))
  }

  // ---------------------------------------------------------------------------------------------
  // Well-formed transactions
  // ---------------------------------------------------------------------------------------------

  ghost predicate WellFormed(t: Transaction) {
    && (t.mode == Create <==> t.oldImage.None?)
    && (t.oldImage.Some? ==> t.oldImage.value.id != t.newImage.id)
  }

  /** A file created by someone else: an object distinct from both images. */
  ghost predicate Foreign(t: Transaction, o: Object) {
    && o.id != t.newImage.id
    && (t.oldImage.Some? ==> o.id != t.oldImage.value.id)
  }

  /** Both images can be observed, so that a journal can describe them. */
  predicate Observable(t: Transaction) {
    && Observe(t.session, t.newImage).Some?
    && (t.oldImage.Some? ==> Observe(t.session, t.oldImage.value).Some?)
  }

  function JournalOf(t: Transaction): Journal
    requires Observable(t)
  {
    Journal(t.mode, t.session.sessionId, t.session.targetName, t.session.stagedExtension,
            if t.oldImage.Some? then Observe(t.session, t.oldImage.value) else None,
            Observe(t.session, t.newImage).value)
  }

  /** The journal of `t` is valid and within the byte limit. */
  predicate Journalled(t: Transaction) {
    && Observable(t)
    && ValidJournal(JournalOf(t))
    && Utf8Length(Encode(t.session.textDigest, JournalOf(t))) <= JOURNAL_MAX_BYTES
  }

  function RecordOf(t: Transaction): Record
    requires Observable(t)
  {
    Record(JournalOf(t), Encode(t.session.textDigest, JournalOf(t)),
           ReceiptName(t.session.sessionId, Receipt(t.mode, Observe(t.session, t.newImage).value)))
  }

  /** The record is the one that the publication's inputs determine. */
  ghost predicate Described(t: Transaction) {
    t.record == if Journalled(t) then Some(RecordOf(t)) else None
  }

  /** A durable prefix of `text` that is not all of it. */
  ghost predicate TornForm(f: FileText, text: string) {
    f.NotUtf8? || f.text < text
  }

  // ---------------------------------------------------------------------------------------------
  // Durable states
  // ---------------------------------------------------------------------------------------------

  ghost predicate OldAt(t: Transaction, slot: Option<Object>) {
    t.oldImage.Some? && slot == t.oldImage
  }

  ghost predicate NewAt(t: Transaction, slot: Option<Object>) {
    slot == Some(t.newImage)
  }

  ghost predicate ForeignAt(t: Transaction, slot: Option<Object>) {
    slot.Some? && Foreign(t, slot.value)
  }

  /** The complete PREPARED journal is durable. */
  ghost predicate Prepared(t: Transaction, d: Disk) {
    t.record.Some? && d.journal == Some(Utf8(t.record.value.journalText))
  }

  ghost predicate TornJournal(t: Transaction, d: Disk) {
    t.record.Some? && d.journal.Some? && TornForm(d.journal.value, t.record.value.journalText)
  }

  ghost predicate Receipted(t: Transaction, d: Disk) {
    t.record.Some? && d.directory == Renamed(t.record.value.receiptName)
  }

  ghost predicate Unreceipted(t: Transaction, d: Disk) {
    d.directory == Created
  }

  /** The old image, when there is one, is parked in the private previous slot. */
  ghost predicate OldParked(t: Transaction, d: Disk) {
    t.oldImage.Some? ==> d.previous == t.oldImage
  }

  /** The new image is at the target and nowhere else. */
  ghost predicate Published(t: Transaction, d: Disk) {
    NewAt(t, d.target) && d.staged == None
  }

  ghost predicate Initial(t: Transaction, d: Disk) {
    && d.previous == None && d.journal == None
    && d.staged == Some(t.newImage)
    && Unreceipted(t, d)
    && if t.oldImage.Some? then d.target == t.oldImage else d.target == None || ForeignAt(t, d.target)
  }

  // ---------------------------------------------------------------------------------------------
  // Steps
  // ---------------------------------------------------------------------------------------------

  /** Someone else creates a file at an empty target. */
  ghost predicate ForeignAppears(t: Transaction, a: Disk, b: Disk) {
    a.target == None && ForeignAt(t, b.target) && b == a.(target := b.target)
  }

  /** The journal becomes durable, completely or in part, while nothing has moved yet. */
  ghost predicate JournalWritten(t: Transaction, a: Disk, b: Disk) {
    && a.journal == None && a.previous == None && Unreceipted(t, a)
    && NewAt(t, a.staged) && !NewAt(t, a.target)
    && (Prepared(t, b) || TornJournal(t, b))
    && b == a.(journal := b.journal)
  }

  /** The old image moves between the target and the previous slot, in one rename or by making a
      second link and deleting the first. Its last name is never deleted. */
  ghost predicate OldMoves(t: Transaction, a: Disk, b: Disk) {
    && Prepared(t, a) && t.oldImage.Some?
    && NewAt(t, a.staged) && Unreceipted(t, a)
    && b == a.(target := b.target, previous := b.previous)
    && OneObjectMoves(t.oldImage, a.target, a.previous, b.target, b.previous)
  }

  /** The new image moves between the staged slot and the target, likewise, while the old image is
      parked. */
  ghost predicate NewMoves(t: Transaction, a: Disk, b: Disk) {
    && Prepared(t, a) && OldParked(t, a) && Unreceipted(t, a)
    && b == a.(target := b.target, staged := b.staged)
    && OneObjectMoves(Some(t.newImage), a.staged, a.target, b.staged, b.target)
  }

  /** One object under two names: either name may be added while the other holds the object, moved
      onto an empty one, or deleted while the other still holds the object. */
  predicate OneObjectMoves(o: Option<Object>, a1: Option<Object>, a2: Option<Object>, b1: Option<Object>,
                           b2: Option<Object>)
  {
    || (a1 == o && a2 == None && b2 == o && (b1 == o || b1 == None))
    || (a2 == o && a1 == None && b1 == o && (b2 == o || b2 == None))
    || (a1 == o && a2 == o && ((b1 == o && b2 == None) || (b1 == None && b2 == o)))
  }

  /** The private directory is renamed to the receipt. */
  ghost predicate ReceiptWritten(t: Transaction, a: Disk, b: Disk) {
    && Prepared(t, a) && OldParked(t, a) && Unreceipted(t, a) && Published(t, a)
    && b == a.(directory := Renamed(t.record.value.receiptName))
  }

  /** The old image is deleted once the new one is at the target and nowhere else. */
  ghost predicate PreviousDropped(t: Transaction, a: Disk, b: Disk) {
    && Prepared(t, a) && OldAt(t, a.previous) && Published(t, a)
    && b == a.(previous := None)
  }

  /** The staged image is deleted while it is not the published one. */
  ghost predicate StagedDropped(t: Transaction, a: Disk, b: Disk) {
    && (Prepared(t, a) || a.journal == None)
    && a.previous == None && NewAt(t, a.staged) && !NewAt(t, a.target)
    && b == a.(staged := None)
  }

  /** The journal is deleted once the outcome needs no further work on the old image. */
  ghost predicate JournalDropped(t: Transaction, a: Disk, b: Disk) {
    && Prepared(t, a) && a.previous == None
    && (NewAt(t, a.target) ==> a.staged == None)
    && b == a.(journal := None)
  }

  ghost predicate Step(t: Transaction, a: Disk, b: Disk) {
    || ForeignAppears(t, a, b)
    || JournalWritten(t, a, b)
    || OldMoves(t, a, b)
    || NewMoves(t, a, b)
    || ReceiptWritten(t, a, b)
    || PreviousDropped(t, a, b)
    || StagedDropped(t, a, b)
    || JournalDropped(t, a, b)
  }

  /** The state at `i` is initial or one step from its predecessor. */
  ghost predicate StateAt(t: Transaction, run: seq<Disk>, i: nat)
    requires i < |run|
  {
    if i == 0 then Initial(t, run[0]) else Step(t, run[i - 1], run[i])
  }

  ghost predicate LegalRun(t: Transaction, run: seq<Disk>) {
    && |run| > 0
    && forall i: nat {:trigger StateAt(t, run, i)} :: i < |run| ==> StateAt(t, run, i)
  }

  // ---------------------------------------------------------------------------------------------
  // The invariant of every run
  // ---------------------------------------------------------------------------------------------

  /** The no-loss property: the old image survives until the new one has replaced it. */
  ghost predicate NothingLost(t: Transaction, d: Disk) {
    t.oldImage.Some? ==> OldAt(t, d.target) || OldAt(t, d.previous) || Published(t, d)
  }

  ghost predicate Invariant(t: Transaction, d: Disk) {
    // only the two images and foreign files occur, each where it can be
    && (d.target == None || OldAt(t, d.target) || NewAt(t, d.target) || ForeignAt(t, d.target))
    && (d.previous == None || OldAt(t, d.previous))
    && (d.staged == None || NewAt(t, d.staged))
    && NothingLost(t, d)
    // the journal is absent, torn or complete, and must be complete while anything is between places
    && (d.journal == None || Prepared(t, d) || TornJournal(t, d))
    && (d.previous.Some? ==> Prepared(t, d))
    && (NewAt(t, d.target) && d.staged.Some? ==> Prepared(t, d))
    && (TornJournal(t, d) ==> NewAt(t, d.staged) && !NewAt(t, d.target) && Unreceipted(t, d))
    // the receipt is written only over a published image
    && (Unreceipted(t, d) || Receipted(t, d))
    && (Receipted(t, d) ==> Published(t, d))
  }

  lemma InitialInvariant(t: Transaction, d: Disk)
    requires WellFormed(t) && Initial(t, d)
    ensures Invariant(t, d)
  {
  }

  lemma TornIsNotPrepared(t: Transaction, d: Disk)
    ensures !(TornJournal(t, d) && Prepared(t, d))
  {
  }

  lemma StepKeepsInvariant(t: Transaction, a: Disk, b: Disk)
    requires WellFormed(t) && Invariant(t, a) && Step(t, a, b)
    ensures Invariant(t, b)
  {
    TornIsNotPrepared(t, a);
    TornIsNotPrepared(t, b);
  }

  /** Every state of every legal run satisfies the invariant, and so loses nothing. */
  lemma {:induction false} RunKeepsInvariant(t: Transaction, run: seq<Disk>, i: nat)
    requires WellFormed(t) && LegalRun(t, run) && i < |run|
    ensures Invariant(t, run[i])
  {
    assert StateAt(t, run, i);
    if i == 0 {
      InitialInvariant(t, run[0]);
    } else {
      RunKeepsInvariant(t, run, i - 1);
      StepKeepsInvariant(t, run[i - 1], run[i]);
    }
  }

  lemma NeverLosesTheOldImage(t: Transaction, run: seq<Disk>, i: nat)
    requires WellFormed(t) && LegalRun(t, run) && i < |run|
    ensures NothingLost(t, run[i])
  {
    RunKeepsInvariant(t, run, i);
  }

  /** A foreign file, once at the target, is there with the same object and bytes ever after. */
  lemma {:induction false} NeverClobbersForeignFile(t: Transaction, run: seq<Disk>, i: nat, k: nat)
    requires WellFormed(t) && LegalRun(t, run) && i <= k < |run|
    requires ForeignAt(t, run[i].target)
    ensures run[k].target == run[i].target
  {
    if i < k {
      NeverClobbersForeignFile(t, run, i, k - 1);
      assert StateAt(t, run, k);
    }
  }

  lemma StepKeepsReceipt(t: Transaction, a: Disk, b: Disk)
    requires WellFormed(t) && Invariant(t, a) && Receipted(t, a) && Step(t, a, b)
    ensures b.directory == a.directory && b.target == a.target && b.staged == a.staged
  {
  }

  /** Once the receipt is durable, the target keeps the new image for the rest of the run. */
  lemma {:induction false} ReceiptIsFinal(t: Transaction, run: seq<Disk>, i: nat, k: nat)
    requires WellFormed(t) && LegalRun(t, run) && i <= k < |run|
    requires Receipted(t, run[i])
    ensures Receipted(t, run[k]) && Published(t, run[k])
  {
    RunKeepsInvariant(t, run, k);
    if i < k {
      ReceiptIsFinal(t, run, i, k - 1);
      RunKeepsInvariant(t, run, k - 1);
      assert StateAt(t, run, k);
      StepKeepsReceipt(t, run[k - 1], run[k]);
    }
  }

  /** The target holds at all times nothing, one complete image, or a foreign file. */
  lemma TargetIsNeverPartial(t: Transaction, run: seq<Disk>, i: nat)
    requires WellFormed(t) && LegalRun(t, run) && i < |run|
    requires run[i].target.Some? && !ForeignAt(t, run[i].target)
    ensures run[i].target == Some(t.newImage) || (t.oldImage.Some? && run[i].target == t.oldImage)
  {
    RunKeepsInvariant(t, run, i);
  }

  lemma ExtendRun(t: Transaction, run: seq<Disk>, d: Disk)
    requires LegalRun(t, run) && Step(t, run[|run| - 1], d)
    ensures LegalRun(t, run + [d])
  {
    var longer := run + [d];
    forall i: nat | i < |longer| ensures StateAt(t, longer, i) {
      if i < |run| { assert StateAt(t, run, i); }
    }
  }

  // ---------------------------------------------------------------------------------------------
  // What recovery decides
  // ---------------------------------------------------------------------------------------------

  datatype Slot = Missing | Old | New | Other

  datatype RecoveryOutcome = Committed | RolledBack

  /** `None` when the object cannot be observed. */
  function Classify(session: Session, slot: Option<Object>, oldFile: Option<FileIdentity>,
                    newFile: FileIdentity): Option<Slot> {
    match slot
    case None => Some(Missing)
    case Some(o) =>
      var observed :- Observe(session, o);
      Some(if oldFile == Some(observed) then Old else if observed == newFile then New else Other)
  }

  /** Both the public and the private name hold the new image: an interrupted hard-link move. */
  predicate DuplicateLinks(target: Slot, staged: Slot) {
    target == New && staged == New
  }

  function Decide(target: Slot, previous: Slot, staged: Slot, mode: PublishMode): Option<RecoveryOutcome> {
    if DuplicateLinks(target, staged) then Some(RolledBack) else
    match (target, previous, staged)
    case (New, Old, Missing) => Some(Committed)
    case (New, Missing, Missing) => Some(Committed)
    case (Old, Missing, New) => if mode != Create then Some(RolledBack) else None
    case (Missing, Old, New) => if mode != Create then Some(RolledBack) else None
    case (Missing, Missing, New) => if mode == Create then Some(RolledBack) else None
    case _ => None
  }

  /** The decision recovery takes on a disk that carries the journal of `t`. */
  function Decision(t: Transaction, d: Disk): Option<RecoveryOutcome>
    requires t.record.Some?
  {
    var j := t.record.value.journal;
    var target :- Classify(t.session, d.target, j.oldFile, j.newFile);
    var previous :- Classify(t.session, d.previous, j.oldFile, j.newFile);
    var staged :- Classify(t.session, d.staged, j.oldFile, j.newFile);
    Decide(target, previous, staged, t.mode)
  }

  /** How a reachable slot is classified. */
  ghost predicate ClassifiedAs(t: Transaction, slot: Option<Object>, c: Slot) {
    && (c == Missing <==> slot == None)
    && (c == Old <==> OldAt(t, slot))
    && (c == New <==> NewAt(t, slot))
  }

  /** A slot that holds nothing, one of the images or a foreign file is told apart by file id; only a
      foreign file can fail to be observed. */
  lemma ClassifyIsExact(t: Transaction, slot: Option<Object>)
    requires WellFormed(t) && Described(t) && t.record.Some?
    requires slot == None || OldAt(t, slot) || NewAt(t, slot) || ForeignAt(t, slot)
    ensures var c := Classify(t.session, slot, t.record.value.journal.oldFile, t.record.value.journal.newFile);
            if c.None? then ForeignAt(t, slot) else ClassifiedAs(t, slot, c.value)
  {
  }

  /** Exactly when recovery refuses a reachable prepared disk: a foreign file is at the target, the
      old image is under both of its names, or an earlier rollback already deleted the staged image. */
  lemma RefusesExactly(t: Transaction, d: Disk)
    requires WellFormed(t) && Described(t) && Invariant(t, d) && Prepared(t, d)
    ensures Decision(t, d) == None <==>
      || ForeignAt(t, d.target)
      || (OldAt(t, d.target) && OldAt(t, d.previous))
      || (d.staged == None && !NewAt(t, d.target))
  {
    ClassifyIsExact(t, d.target);
    ClassifyIsExact(t, d.previous);
    ClassifyIsExact(t, d.staged);
  }

  /** Recovery commits exactly the disks on which the new image is fully published. */
  lemma CommitsExactly(t: Transaction, d: Disk)
    requires WellFormed(t) && Described(t) && Invariant(t, d) && Prepared(t, d)
    ensures Decision(t, d) == Some(Committed) <==> Published(t, d)
  {
    ClassifyIsExact(t, d.target);
    ClassifyIsExact(t, d.previous);
    ClassifyIsExact(t, d.staged);
  }

  // ---------------------------------------------------------------------------------------------
  // Where publication can stop
  // ---------------------------------------------------------------------------------------------

  ghost predicate AtTargetBefore(t: Transaction, d: Disk) {
    if t.oldImage.Some? then d.target == t.oldImage else d.target == None || ForeignAt(t, d.target)
  }

  ghost predicate NotYetMoved(t: Transaction, d: Disk) {
    && AtTargetBefore(t, d) && d.previous == None && NewAt(t, d.staged) && Unreceipted(t, d)
  }

  /** Between the two renames, in either direction. */
  ghost predicate Midway(t: Transaction, d: Disk) {
    && Prepared(t, d) && Unreceipted(t, d)
    && (d.staged == None || NewAt(t, d.staged))
    && (d.staged == None ==> NewAt(t, d.target))
    && if t.oldImage.None? then
         d.previous == None && (d.target == None || NewAt(t, d.target) || ForeignAt(t, d.target))
       else
         || (OldAt(t, d.target) && d.previous == None && NewAt(t, d.staged))
         || (OldAt(t, d.target) && OldAt(t, d.previous) && NewAt(t, d.staged))
         || (OldAt(t, d.previous) && (d.target == None || NewAt(t, d.target) || ForeignAt(t, d.target)))
  }

  /** Behind the commit point. */
  ghost predicate Committing(t: Transaction, d: Disk) {
    && Receipted(t, d) && Published(t, d)
    && (d.previous == None || OldAt(t, d.previous))
    && (Prepared(t, d) || (d.journal == None && d.previous == None))
  }

  /** Every state in which one publication, begun on an initial disk, can stop. */
  ghost predicate PublicationStop(t: Transaction, d: Disk) {
    || (NotYetMoved(t, d) && (d.journal == None || TornJournal(t, d)))
    || Midway(t, d)
    || Committing(t, d)
  }

  /** The one disk each completed recovery leaves. */
  ghost predicate Settled(t: Transaction, d: Disk, outcome: RecoveryOutcome) {
    && d.previous == None && d.staged == None && d.journal == None
    && match outcome
       case Committed => NewAt(t, d.target)
       case RolledBack => d.target == t.oldImage
  }

  /** Without foreign files, recovery refuses a stopped publication exactly when the journal is torn
      or the old image is under both names. */
  lemma StoppedPublicationIsDecided(t: Transaction, d: Disk)
    requires WellFormed(t) && Described(t) && PublicationStop(t, d) && !ForeignAt(t, d.target)
    requires Prepared(t, d)
    ensures Decision(t, d) == None <==> OldAt(t, d.target) && OldAt(t, d.previous)
    ensures Decision(t, d) == Some(Committed) <==> Published(t, d)
  {
    ClassifyIsExact(t, d.target);
    ClassifyIsExact(t, d.previous);
    ClassifyIsExact(t, d.staged);
  }

  // ---------------------------------------------------------------------------------------------
  // Runs that end in a refusal
  // ---------------------------------------------------------------------------------------------

  lemma ThreeStateRun(t: Transaction, a: Disk, b: Disk, c: Disk)
    requires Initial(t, a) && Step(t, a, b) && Step(t, b, c)
    ensures LegalRun(t, [a, b, c])
  {
    assert LegalRun(t, [a]) by {
      assert StateAt(t, [a], 0);
    }
    ExtendRun(t, [a], b);
    assert [a] + [b] == [a, b];
    ExtendRun(t, [a, b], c);
    assert [a, b] + [c] == [a, b, c];
  }

  /** From every initial disk of a replace or append, a stop between the two halves of linking the old
      image leaves it under both of its names, and recovery refuses. */
  lemma OldLinkedTwiceIsReachable(t: Transaction, d: Disk) returns (run: seq<Disk>)
    requires WellFormed(t) && Described(t) && t.record.Some? && t.oldImage.Some? && Initial(t, d)
    ensures LegalRun(t, run) && |run| == 3 && run[0] == d
    ensures Prepared(t, run[2]) && OldAt(t, run[2].target) && OldAt(t, run[2].previous)
    ensures Decision(t, run[2]) == None
  {
    var written := d.(journal := Some(Utf8(t.record.value.journalText)));
    var linked := written.(previous := t.oldImage);
    assert JournalWritten(t, d, written) && OldMoves(t, written, linked);
    run := [d, written, linked];
    ThreeStateRun(t, d, written, linked);
    RunKeepsInvariant(t, run, 2);
    RefusesExactly(t, linked);
  }

  /** From every initial disk, a stop while the journal is written can leave any proper prefix of it,
      which is no journal. */
  lemma TornJournalIsReachable(t: Transaction, d: Disk, part: FileText) returns (run: seq<Disk>)
    requires WellFormed(t) && t.record.Some? && Initial(t, d) && TornForm(part, t.record.value.journalText)
    ensures LegalRun(t, run) && |run| == 2 && run[0] == d && run[1] == d.(journal := Some(part))
    ensures TornJournal(t, run[1]) && !Prepared(t, run[1])
  {
    var torn := d.(journal := Some(part));
    assert JournalWritten(t, d, torn);
    TornIsNotPrepared(t, torn);
    run := [d, torn];
    assert LegalRun(t, [d]) by {
      assert StateAt(t, [d], 0);
    }
    ExtendRun(t, [d], torn);
    assert [d] + [torn] == run;
  }

  /** From every initial disk, a recovery that stops between deleting the staged image and deleting the
      journal leaves a disk that every later recovery refuses. */
  lemma HalfRecoveredIsReachable(t: Transaction, d: Disk) returns (run: seq<Disk>)
    requires WellFormed(t) && Described(t) && t.record.Some? && Initial(t, d)
    ensures LegalRun(t, run) && |run| == 3 && run[0] == d
    ensures Prepared(t, run[2]) && run[2] == d.(journal := run[2].journal, staged := None)
    ensures Decision(t, run[2]) == None
  {
    var written := d.(journal := Some(Utf8(t.record.value.journalText)));
    var dropped := written.(staged := None);
    assert JournalWritten(t, d, written) && StagedDropped(t, written, dropped);
    run := [d, written, dropped];
    ThreeStateRun(t, d, written, dropped);
    RunKeepsInvariant(t, run, 2);
    RefusesExactly(t, dropped);
  }
}
