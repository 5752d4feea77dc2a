/** The two-entry UefiSeven transaction on an EFI system partition. Every read and write may fail; the
    failures come from a script, so a property of every script is a property of every point of failure.
    SHA-256 comparisons with the locked package are predicates on file content. */
module UefiSeven {
  import opened Wrappers
  import opened MachineIntegers

  type Bytes = seq<byte>

  /** The three files of one boot entry. */
  datatype Entry = Entry(active: Option<Bytes>, original: Option<Bytes>, ini: Option<Bytes>)

  datatype FileName = Active | Original | Ini

  /** `Refused` is an error before any change. */
  datatype Outcome = Deployed | Refused | RolledBack | RollbackIncomplete

  /** The package, and what the locked SHA-256 values accept. */
  datatype Package = Package(
    loader: Bytes,
    ini: Bytes,
    isLockedLoader: Bytes -> bool,
    isLockedIni: Bytes -> bool)

  function Get(e: Entry, name: FileName): Option<Bytes> {
    match name
    case Active => e.active
    case Original => e.original
    case Ini => e.ini
  }

  function Put(e: Entry, name: FileName, content: Option<Bytes>): Entry {
    match name
    case Active => e.(active := content)
    case Original => e.(original := content)
    case Ini => e.(ini := content)
  }

  // ---------------------------------------------------------------------------------------------
  // EFI program architecture
  // ---------------------------------------------------------------------------------------------

  function ReadLe(data: Bytes, offset: nat, width: nat): nat
    requires offset + width <= |data|
    decreases width
  {
    if width == 0 then 0 else data[offset] + 256 * ReadLe(data, offset + 1, width - 1)
  }

  /** The machine field of a PE image: 'M' 'Z', the header offset at 0x3c, 'P' 'E' 0 0, then machine. */
  function PeMachine(data: Bytes): Option<nat> {
    if |data| < 0x40 || data[0] != 0x4d || data[1] != 0x5a then None else
    var pe := ReadLe(data, 0x3c, 4);
    if pe + 6 > |data| then None
    else if data[pe..pe + 4] != [0x50, 0x45, 0, 0] then None
    else Some(ReadLe(data, pe + 4, 2))
  }

  predicate IsX64(data: Bytes) {
    PeMachine(data) == Some(0x8664)
  }

  /** An x64 program, byte by byte: 'M' 'Z', at least 64 bytes, and where the four bytes from 0x3c point, least
      significant first, 'P' 'E' 0 0 and the machine bytes 0x64 0x86. */
  lemma IsX64Exactly(data: Bytes)
    ensures IsX64(data) <==>
      && |data| >= 64 && data[0] == 77 && data[1] == 90
      && var pe: int := (data[60] as int) + 256 * (data[61] as int) + 65_536 * (data[62] as int)
                        + 16_777_216 * (data[63] as int);
         && pe + 6 <= |data|
         && data[pe] == 80 && data[pe + 1] == 69 && data[pe + 2] == 0 && data[pe + 3] == 0
         && data[pe + 4] == 0x64 && data[pe + 5] == 0x86
  {
    if |data| >= 64 {
      assert ReadLe(data, 62, 2) == (data[62] as int) + 256 * (data[63] as int);
      assert ReadLe(data, 60, 4) ==
        (data[60] as int) + 256 * ((data[61] as int) + 256 * ReadLe(data, 62, 2));
      var pe := ReadLe(data, 60, 4);
      if pe + 6 <= |data| {
        assert ReadLe(data, pe + 4, 2) == (data[pe + 4] as int) + 256 * (data[pe + 5] as int);
        assert data[pe..pe + 4] == [data[pe], data[pe + 1], data[pe + 2], data[pe + 3]];
      }
    }
  }

  // ---------------------------------------------------------------------------------------------
  // What the two operations achieve
  // ---------------------------------------------------------------------------------------------

  /** An entry that can be put behind UefiSeven: its own loader, or the loader already saved beside it,
      is an x64 program other than the shim. */
  predicate Installable(p: Package, e: Entry) {
    && e.active.Some?
    && if e.active.value != p.loader then IsX64(e.active.value)
       else e.original.Some? && e.original.value != p.loader && IsX64(e.original.value)
  }

  /** The entry behind UefiSeven. */
  function InstalledEntry(p: Package, e: Entry): Entry {
    Entry(Some(p.loader), if e.active == Some(p.loader) then e.original else e.active, Some(p.ini))
  }

  predicate Locked(p: Package, content: Option<Bytes>) {
    content.Some? && p.isLockedLoader(content.value)
  }

  /** An entry that can be made native: its active loader, or the one saved beside the shim, is an x64
      program other than the shim. */
  predicate Restorable(p: Package, e: Entry) {
    && e.active.Some?
    && if Locked(p, e.active) then e.original.Some? && !Locked(p, e.original) && IsX64(e.original.value)
       else IsX64(e.active.value)
  }

  function RestoredEntry(p: Package, e: Entry): Entry {
    Entry(if Locked(p, e.active) then e.original else e.active,
          e.original,
          if e.ini.Some? && p.isLockedIni(e.ini.value) then None else e.ini)
  }

  predicate VerifiedPackage(p: Package) {
    p.isLockedLoader(p.loader) && p.isLockedIni(p.ini)
  }

  /** An entry is installable exactly when installing it saves an x64 loader that is not the shim. */
  lemma InstallableExactly(p: Package, e: Entry)
    ensures Installable(p, e) <==>
      && e.active.Some?
      && var saved := InstalledEntry(p, e).original;
         saved.Some? && saved.value != p.loader && IsX64(saved.value)
  {
  }

  /** An entry is restorable exactly when restoring it starts an x64 loader that is not the shim; the saved loader
      stays, and of the configuration only the shim's own goes. */
  lemma RestorableExactly(p: Package, e: Entry)
    ensures Restorable(p, e) <==>
      && e.active.Some?
      && var started := RestoredEntry(p, e).active;
         started.Some? && !p.isLockedLoader(started.value) && IsX64(started.value)
    ensures RestoredEntry(p, e).active == e.active || RestoredEntry(p, e).active == e.original
    ensures RestoredEntry(p, e).original == e.original
    ensures RestoredEntry(p, e).ini == None || RestoredEntry(p, e).ini == e.ini
    ensures e.ini.Some? ==> (RestoredEntry(p, e).ini == None <==> p.isLockedIni(e.ini.value))
  {
  }

  /** Installing twice is installing once. */
  lemma InstallIsIdempotent(p: Package, e: Entry)
    requires Installable(p, e)
    ensures Installable(p, InstalledEntry(p, e))
    ensures InstalledEntry(p, InstalledEntry(p, e)) == InstalledEntry(p, e)
  {
  }

  /** An installed entry starts the shim and keeps the Windows loader it had, one level deep: the shim is
      never saved as its own original. */
  lemma InstalledKeepsLoader(p: Package, e: Entry)
    requires Installable(p, e)
    ensures var i := InstalledEntry(p, e);
            && i.active == Some(p.loader) && i.ini == Some(p.ini)
            && i.original.Some? && i.original.value != p.loader && IsX64(i.original.value)
            && (i.original == e.active || (e.active == Some(p.loader) && i.original == e.original))
  {
  }

  /** From an entry whose loader is not the shim, install and then restore gives the loader back. */
  lemma RestoreUndoesInstall(p: Package, e: Entry)
    requires VerifiedPackage(p) && Installable(p, e) && !Locked(p, e.active)
    ensures Restorable(p, InstalledEntry(p, e))
    ensures RestoredEntry(p, InstalledEntry(p, e)).active == e.active
    ensures RestoredEntry(p, InstalledEntry(p, e)).ini == None
  {
  }

  // ---------------------------------------------------------------------------------------------
  // Scripts and snapshots
  // ---------------------------------------------------------------------------------------------

  function Remaining(script: seq<bool>, n: nat): seq<bool> {
    if n >= |script| then [] else script[n..]
  }

  /** Whether the `n`-th coming file operation succeeds. */
  predicate ReadsAt(script: seq<bool>, n: nat) {
    n < |script| ==> script[n]
  }

  /** The next `n` operations succeed. */
  predicate AllSucceed(script: seq<bool>, n: nat) {
    forall k :: 0 <= k < n ==> ReadsAt(script, k)
  }

  /** How many of the coming operations fail. */
  function Failures(script: seq<bool>): nat {
    if script == [] then 0 else (if script[0] then 0 else 1) + Failures(script[1..])
  }

  /** Operations behind operations. */
  lemma RemainingInTurn(script: seq<bool>, n: nat, m: nat)
    ensures Remaining(script, n + m) == Remaining(Remaining(script, n), m)
    ensures forall k: nat :: ReadsAt(Remaining(script, n), k) == ReadsAt(script, n + k)
  {
  }

  /** The next operations and the ones behind them. */
  lemma SucceedInTurn(script: seq<bool>, n: nat, m: nat)
    ensures AllSucceed(script, n + m) <==> AllSucceed(script, n) && AllSucceed(Remaining(script, n), m)
    ensures Remaining(script, n + m) == Remaining(Remaining(script, n), m)
  {
    RemainingInTurn(script, n, m);
    if AllSucceed(script, n) && AllSucceed(Remaining(script, n), m) {
      forall k | 0 <= k < n + m ensures ReadsAt(script, k) {
        assert k >= n ==> ReadsAt(Remaining(script, n), k - n);
      }
    }
  }

  /** A failure among the next operations is one less behind them. */
  lemma {:induction false} FailuresBehind(script: seq<bool>, n: nat)
    ensures if AllSucceed(script, n) then Failures(Remaining(script, n)) == Failures(script)
            else Failures(Remaining(script, n)) < Failures(script)
  {
    if n > 0 && script != [] {
      FailuresBehind(script[1..], n - 1);
      assert Remaining(script, n) == Remaining(script[1..], n - 1);
      SucceedInTurn(script, 1, n - 1);
      assert Remaining(script, 1) == script[1..];
      assert AllSucceed(script, 1) <==> ReadsAt(script, 0);
    }
  }

  function SeenAt(content: Option<Bytes>, script: seq<bool>, n: nat): Option<Bytes> {
    if ReadsAt(script, n) then content else None
  }

  /** What the six snapshot reads see. */
  function SnapshotRead(entries: seq<Entry>, script: seq<bool>): (snapshots: seq<Entry>)
    requires |entries| == 2
    ensures |snapshots| == 2
  {
    [EntryRead(entries[0], script), EntryRead(entries[1], Remaining(script, 3))]
  }

  function EntryRead(e: Entry, script: seq<bool>): Entry {
    Entry(SeenAt(e.active, script, 0), SeenAt(e.original, script, 1), SeenAt(e.ini, script, 2))
  }

  /** No snapshot read of a file that exists failed. */
  predicate SnapshotIsTrue(entries: seq<Entry>, script: seq<bool>)
    requires |entries| == 2
  {
    && (entries[0].active.Some? ==> ReadsAt(script, 0))
    && (entries[0].original.Some? ==> ReadsAt(script, 1))
    && (entries[0].ini.Some? ==> ReadsAt(script, 2))
    && (entries[1].active.Some? ==> ReadsAt(script, 3))
    && (entries[1].original.Some? ==> ReadsAt(script, 4))
    && (entries[1].ini.Some? ==> ReadsAt(script, 5))
  }

  /** A snapshot shows the files as they are exactly when no read of an existing file failed. */
  lemma SnapshotTruth(entries: seq<Entry>, script: seq<bool>)
    requires |entries| == 2
    ensures SnapshotRead(entries, script) == entries <==> SnapshotIsTrue(entries, script)
  {
    assert entries == [entries[0], entries[1]];
    RemainingInTurn(script, 3, 1);
  }

  /** Putting a file back takes an operation unless the file is missing and stays so. */
  function RestoreOps(now: Option<Bytes>, snapshot: Option<Bytes>): nat {
    if now.Some? || snapshot.Some? then 1 else 0
  }

  function EntryRestoreOps(e: Entry, snapshot: Entry): nat {
    RestoreOps(e.active, snapshot.active) + RestoreOps(e.original, snapshot.original) + RestoreOps(e.ini, snapshot.ini)
  }

  function AllRestoreOps(entries: seq<Entry>, snapshots: seq<Entry>): nat
    requires |entries| == |snapshots| == 2
  {
    EntryRestoreOps(entries[0], snapshots[0]) + EntryRestoreOps(entries[1], snapshots[1])
  }

  /** A file that a rollback tries to put back behind `n` operations of the script. */
  function PutBack(now: Option<Bytes>, snapshot: Option<Bytes>, script: seq<bool>, n: nat): Option<Bytes> {
    if RestoreOps(now, snapshot) == 0 || ReadsAt(script, n) then snapshot else now
  }

  /** An entry behind a rollback, whatever fails. */
  function EntryPutBack(e: Entry, snapshot: Entry, script: seq<bool>): Entry {
    var first := RestoreOps(e.active, snapshot.active);
    var second := RestoreOps(e.original, snapshot.original);
    Entry(PutBack(e.active, snapshot.active, script, 0),
          PutBack(e.original, snapshot.original, script, first),
          PutBack(e.ini, snapshot.ini, script, first + second))
  }

  /** Both entries behind the first `n` of them are rolled back, whatever fails. */
  function PutBackUpTo(entries: seq<Entry>, snapshots: seq<Entry>, script: seq<bool>, n: nat): seq<Entry>
    requires |entries| == |snapshots| == 2
  {
    [ if n > 0 then EntryPutBack(entries[0], snapshots[0], script) else entries[0],
      if n > 1 then EntryPutBack(entries[1], snapshots[1], Remaining(script, EntryRestoreOps(entries[0], snapshots[0])))
      else entries[1] ]
  }

  lemma ThreeOperations(script: seq<bool>, a: nat, b: nat, c: nat)
    requires a <= 1 && b <= 1 && c <= 1
    ensures AllSucceed(script, a + b + c) <==>
      (a == 0 || ReadsAt(script, 0)) && (b == 0 || ReadsAt(script, a)) && (c == 0 || ReadsAt(script, a + b))
    ensures Remaining(Remaining(Remaining(script, a), b), c) == Remaining(script, a + b + c)
    ensures ReadsAt(Remaining(script, a), 0) == ReadsAt(script, a)
    ensures ReadsAt(Remaining(Remaining(script, a), b), 0) == ReadsAt(script, a + b)
  {
  }

  lemma EntryPutBackCompletely(e: Entry, snapshot: Entry, script: seq<bool>)
    ensures AllSucceed(script, EntryRestoreOps(e, snapshot)) ==> EntryPutBack(e, snapshot, script) == snapshot
  {
    ThreeOperations(script, RestoreOps(e.active, snapshot.active), RestoreOps(e.original, snapshot.original),
                    RestoreOps(e.ini, snapshot.ini));
  }

  lemma PutBackCompletely(entries: seq<Entry>, snapshots: seq<Entry>, script: seq<bool>)
    requires |entries| == |snapshots| == 2
    ensures AllSucceed(script, AllRestoreOps(entries, snapshots)) ==>
        PutBackUpTo(entries, snapshots, script, 2) == snapshots
  {
    var ops := EntryRestoreOps(entries[0], snapshots[0]);
    SucceedInTurn(script, ops, EntryRestoreOps(entries[1], snapshots[1]));
    EntryPutBackCompletely(entries[0], snapshots[0], script);
    EntryPutBackCompletely(entries[1], snapshots[1], Remaining(script, ops));
  }

  /** The state behind the first `n` entries of a rollback. */
  predicate PutBackSoFar(entries: seq<Entry>, snapshots: seq<Entry>, script: seq<bool>, n: nat, now: seq<Entry>,
                         coming: seq<bool>, complete: bool)
    requires |entries| == |snapshots| == 2
  {
    var ops := (if n > 0 then EntryRestoreOps(entries[0], snapshots[0]) else 0)
               + if n > 1 then EntryRestoreOps(entries[1], snapshots[1]) else 0;
    && now == PutBackUpTo(entries, snapshots, script, n)
    && complete == AllSucceed(script, ops) && coming == Remaining(script, ops)
  }

  lemma PutBackOne(entries: seq<Entry>, snapshots: seq<Entry>, script: seq<bool>, n: nat, now: seq<Entry>,
                   coming: seq<bool>, complete: bool, ok: bool)
    requires |entries| == |snapshots| == 2 && n < 2
    requires PutBackSoFar(entries, snapshots, script, n, now, coming, complete)
    requires ok == AllSucceed(coming, EntryRestoreOps(now[n], snapshots[n]))
    ensures PutBackSoFar(entries, snapshots, script, n + 1, now[n := EntryPutBack(now[n], snapshots[n], coming)],
                         Remaining(coming, EntryRestoreOps(now[n], snapshots[n])), complete && ok)
  {
    var ops := EntryRestoreOps(entries[0], snapshots[0]);
    if n == 0 {
      SucceedInTurn(script, 0, ops);
    } else {
      SucceedInTurn(script, ops, EntryRestoreOps(entries[1], snapshots[1]));
    }
  }

  // ---------------------------------------------------------------------------------------------
  // The partition
  // ---------------------------------------------------------------------------------------------

  class EspFiles {
    /** Microsoft's entry and the firmware fallback entry. */
    var entries: seq<Entry>
    /** Whether each coming file operation succeeds; behind the end all do. */
    var script: seq<bool>

    ghost predicate Valid()
      reads this
    {
      |entries| == 2
    }

    /** No failure is added, and an operation that did not succeed used one up. */
    twostate predicate Onward(ok: bool)
      reads this
    {
      Failures(script) + (if ok then 0 else 1) <= old(Failures(script))
    }

    constructor (microsoft: Entry, fallback: Entry, script: seq<bool>)
      ensures Valid() && entries == [microsoft, fallback] && this.script == script
    {
      entries := [microsoft, fallback];
      this.script := script;
    }

    method Attempt() returns (ok: bool)
      modifies this`script
      ensures ok == ReadsAt(old(script), 0) && script == Remaining(old(script), 1)
      ensures Onward(ok)
    {
      ok := true;
      if script != [] {
        ok := script[0];
        script := script[1..];
      }
    }

    /** `None` when the file is missing or the read fails. */
    method Read(i: nat, name: FileName) returns (r: Option<Bytes>)
      requires Valid() && i < 2
      modifies this`script
      ensures script == Remaining(old(script), 1)
      ensures r == SeenAt(Get(entries[i], name), old(script), 0)
      ensures Onward(r == Get(entries[i], name))
    {
      var ok := Attempt();
      r := if ok then Get(entries[i], name) else None;
    }

    /** Whether a file holds what a locked SHA-256 value accepts; a missing file does not, and `None` is a
        failed read. */
    method HoldsLocked(isLocked: Bytes -> bool, i: nat, name: FileName) returns (r: Option<bool>)
      requires Valid() && i < 2
      modifies this`script
      ensures r.Some? ==> r.value == (Get(entries[i], name).Some? && isLocked(Get(entries[i], name).value))
      ensures Onward(r.Some?)
    {
      if Get(entries[i], name).None? {
        return Some(false);
      }
      var content := Read(i, name);
      return if content.None? then None else Some(isLocked(content.value));
    }

    /** Whether a file is read as an x64 program; a failed read is none. */
    method HoldsX64(i: nat, name: FileName) returns (r: bool)
      requires Valid() && i < 2
      modifies this`script
      ensures r ==> Get(entries[i], name).Some? && IsX64(Get(entries[i], name).value)
      ensures Onward(r || !(Get(entries[i], name).Some? && IsX64(Get(entries[i], name).value)))
    {
      var content := Read(i, name);
      return content.Some? && IsX64(content.value);
    }

    /** Replace atomically: a failure leaves the old content. */
    method Replace(i: nat, name: FileName, content: Bytes) returns (ok: bool)
      requires Valid() && i < 2
      modifies this
      ensures Valid()
      ensures entries == if ok then old(entries)[i := Put(old(entries)[i], name, Some(content))] else old(entries)
      ensures ok == ReadsAt(old(script), 0) && script == Remaining(old(script), 1)
      ensures Onward(ok)
    {
      ok := Attempt();
      if ok {
        entries := entries[i := Put(entries[i], name, Some(content))];
      }
    }

    method Remove(i: nat, name: FileName) returns (ok: bool)
      requires Valid() && i < 2
      modifies this
      ensures Valid()
      ensures entries == if ok then old(entries)[i := Put(old(entries)[i], name, None)] else old(entries)
      ensures ok == ReadsAt(old(script), 0) && script == Remaining(old(script), 1)
      ensures Onward(ok)
    {
      ok := Attempt();
      if ok {
        entries := entries[i := Put(entries[i], name, None)];
      }
    }

    /** Put a file back to its snapshot. */
    method RestoreFile(i: nat, name: FileName, snapshot: Option<Bytes>) returns (ok: bool)
      requires Valid() && i < 2
      modifies this
      ensures Valid()
      ensures entries == if ok then old(entries)[i := Put(old(entries)[i], name, snapshot)] else old(entries)
      ensures var ops := RestoreOps(Get(old(entries)[i], name), snapshot);
        ok == (ops == 0 || ReadsAt(old(script), 0)) && script == Remaining(old(script), ops)
    {
      if snapshot.Some? {
        ok := Replace(i, name, snapshot.value);
      } else if Get(entries[i], name).Some? {
        ok := Remove(i, name);
      } else {
        ok := true;
        assert Put(entries[i], name, None) == entries[i];
      }
    }

    /** Put the files of one entry back, going on after errors. */
    method RollbackEntry(i: nat, snapshot: Entry) returns (ok: bool)
      requires Valid() && i < 2
      modifies this
      ensures Valid() && entries[1 - i] == old(entries)[1 - i]
      ensures entries[i] == EntryPutBack(old(entries)[i], snapshot, old(script))
      ensures var ops := EntryRestoreOps(old(entries)[i], snapshot);
        ok == AllSucceed(old(script), ops) && script == Remaining(old(script), ops)
    {
      ghost var before, e := script, entries[i];
      var active := RestoreFile(i, Active, snapshot.active);
      var original := RestoreFile(i, Original, snapshot.original);
      var ini := RestoreFile(i, Ini, snapshot.ini);
      ThreeOperations(before, RestoreOps(e.active, snapshot.active), RestoreOps(e.original, snapshot.original),
                      RestoreOps(e.ini, snapshot.ini));
      return active && original && ini;
    }

    /** Put every file of both entries back to the snapshots, going on after errors. It succeeds exactly when
        every operation it takes does. */
    method Rollback(snapshots: seq<Entry>) returns (outcome: Outcome)
      requires Valid() && |snapshots| == 2
      modifies this
      ensures Valid()
      ensures outcome == RolledBack ==> entries == snapshots
      ensures entries == PutBackUpTo(old(entries), snapshots, old(script), 2)
      ensures outcome ==
        if AllSucceed(old(script), AllRestoreOps(old(entries), snapshots)) then RolledBack else RollbackIncomplete
      ensures script == Remaining(old(script), AllRestoreOps(old(entries), snapshots))
    {
      ghost var before, first := script, entries;
      var complete := true;
      for i := 0 to 2
        invariant Valid() && PutBackSoFar(first, snapshots, before, i, entries, script, complete)
      {
        ghost var now, coming := entries, script;
        var ok := RollbackEntry(i, snapshots[i]);
        PutBackOne(first, snapshots, before, i, now, coming, complete, ok);
        complete := complete && ok;
      }
      PutBackCompletely(first, snapshots, before);
      outcome := if complete then RolledBack else RollbackIncomplete;
    }

    // -------------------------------------------------------------------------------------------
    // Install
    // -------------------------------------------------------------------------------------------

    /** Save the loader in use beside the shim, unless the shim is already in use. */
    method SaveLoader(p: Package, i: nat) returns (ok: bool)
      requires Valid() && i < 2
      modifies this
      ensures Valid() && entries[1 - i] == old(entries)[1 - i]
      ensures ok ==> Installable(p, old(entries)[i])
      ensures ok ==> entries[i] == old(entries)[i].(original := InstalledEntry(p, old(entries)[i]).original)
      ensures Onward(ok || !Installable(p, old(entries)[i]))
    {
      var current := Read(i, Active);
      if current.None? {
        return false;
      }
      if current.value != p.loader {
        ok := Replace(i, Original, current.value);
        if !ok {
          return;
        }
        var backup := Read(i, Original);
        if backup != current {
          return false;
        }
      } else if entries[i].original.None? {
        return false;
      }
      var original := Read(i, Original);
      if original.None? || original.value == p.loader {
        return false;
      }
      ok := HoldsX64(i, Original);
    }

    /** Put one entry behind UefiSeven. */
    method DeployEntry(p: Package, i: nat) returns (ok: bool)
      requires Valid() && i < 2 && VerifiedPackage(p)
      modifies this
      ensures Valid()
      ensures entries[1 - i] == old(entries)[1 - i]
      ensures ok ==> Installable(p, old(entries)[i]) && entries[i] == InstalledEntry(p, old(entries)[i])
      ensures Onward(ok || !Installable(p, old(entries)[i]))
    {
      ok := SaveLoader(p, i);
      if !ok {
        return;
      }
      ok := Replace(i, Ini, p.ini);
      if !ok {
        return;
      }
      var ini := Read(i, Ini);
      if ini.None? || !p.isLockedIni(ini.value) {
        return false;
      }
      ok := Replace(i, Active, p.loader);
      if !ok {
        return;
      }
      var active := Read(i, Active);
      return active.Some? && p.isLockedLoader(active.value);
    }

    /** Snapshot one entry; a failed read looks like a missing file. `None` when the active loader is needed
        and was not read. */
    method SnapshotEntry(i: nat, needsActive: bool) returns (r: Option<Entry>)
      requires Valid() && i < 2
      modifies this`script
      ensures r.None? <==> needsActive && SeenAt(entries[i].active, old(script), 0) == None
      ensures r.Some? ==> r.value == EntryRead(entries[i], old(script)) && script == Remaining(old(script), 3)
      ensures Failures(script) <= old(Failures(script))
    {
      var active := Read(i, Active);
      if needsActive && active.None? {
        return None;
      }
      RemainingInTurn(old(script), 1, 1);
      var original := Read(i, Original);
      RemainingInTurn(old(script), 2, 1);
      var ini := Read(i, Ini);
      return Some(Entry(active, original, ini));
    }

    /** Snapshot both entries before an installation. The saved loader and the configuration may be
        missing; a failed read of either looks the same as a missing file. */
    method SnapshotForInstall() returns (r: Option<seq<Entry>>)
      requires Valid()
      modifies this`script
      ensures r.Some? ==> r.value == SnapshotRead(entries, old(script))
      ensures r.None? <==>
          entries[0].active.None? || entries[1].active.None? || !ReadsAt(old(script), 0) || !ReadsAt(old(script), 3)
      ensures r.Some? ==> script == Remaining(old(script), 6)
      ensures Failures(script) <= old(Failures(script))
    {
      var first := SnapshotEntry(0, true);
      if first.None? {
        return None;
      }
      RemainingInTurn(old(script), 3, 3);
      var second := SnapshotEntry(1, true);
      return if second.None? then None else Some([first.value, second.value]);
    }

    /** Install the package on both entries, or put everything back. `broken` is the partition and the
        script at the point where deploying failed. */
    method Install(p: Package) returns (outcome: Outcome, ghost broken: Option<(seq<Entry>, seq<bool>)>)
      requires Valid()
      modifies this
      ensures Valid()
      ensures outcome == Refused <==>
        || !VerifiedPackage(p) || old(entries)[0].active.None? || old(entries)[1].active.None?
        || !ReadsAt(old(script), 0) || !ReadsAt(old(script), 3)
      ensures outcome == Refused ==> entries == old(entries)
      ensures outcome == Deployed ==>
        forall i :: 0 <= i < 2 ==>
          Installable(p, old(entries)[i]) && entries[i] == InstalledEntry(p, old(entries)[i])
      // a successful rollback restores exactly what the snapshot saw
      ensures outcome == RolledBack ==> entries == SnapshotRead(old(entries), old(script))
      ensures outcome == RolledBack ==> (entries == old(entries) <==> SnapshotIsTrue(old(entries), old(script)))
      // and a rollback succeeds exactly when every operation it takes does
      ensures broken.Some? <==> outcome == RolledBack || outcome == RollbackIncomplete
      ensures broken.Some? ==> UndoneFrom(broken.value, SnapshotRead(old(entries), old(script)), outcome, entries)
      // no failure behind the snapshots, or one failure on installable entries
      ensures outcome != Refused && Failures(Remaining(old(script), 6)) == 0 ==>
        outcome == if forall i :: 0 <= i < 2 ==> Installable(p, old(entries)[i]) then Deployed else RolledBack
      ensures old(Failures(script)) <= 1 && (forall i :: 0 <= i < 2 ==> Installable(p, old(entries)[i])) ==>
        outcome != RollbackIncomplete
      ensures Failures(script) <= old(Failures(script))
    {
      broken := None;
      if !VerifiedPackage(p) || entries[0].active.None? || entries[1].active.None? {
        return Refused, broken;
      }
      FailuresBehind(script, 6);
      var snapshots := SnapshotForInstall();
      if snapshots.None? {
        return Refused, broken;
      }
      SnapshotTruth(entries, old(script));
      var ok := DeployBoth(p);
      if !ok {
        broken := Some((entries, script));
        FailuresBehind(script, AllRestoreOps(entries, snapshots.value));
        outcome := Rollback(snapshots.value);
        return;
      }
      return Deployed, broken;
    }

    /** How a rollback ends that began in a given state. */
    static ghost predicate UndoneFrom(broken: (seq<Entry>, seq<bool>), snapshots: seq<Entry>, outcome: Outcome,
                                      now: seq<Entry>)
    {
      && |broken.0| == |snapshots| == 2
      && now == PutBackUpTo(broken.0, snapshots, broken.1, 2)
      && outcome == if AllSucceed(broken.1, AllRestoreOps(broken.0, snapshots)) then RolledBack else RollbackIncomplete
    }

    /** Deploy the entries in turn until one fails. */
    method DeployBoth(p: Package) returns (ok: bool)
      requires Valid() && VerifiedPackage(p)
      modifies this
      ensures Valid()
      ensures ok ==> forall k :: 0 <= k < 2 ==>
        Installable(p, old(entries)[k]) && entries[k] == InstalledEntry(p, old(entries)[k])
      ensures Onward(ok || !(Installable(p, old(entries)[0]) && Installable(p, old(entries)[1])))
    {
      ok := true;
      var i := 0;
      while ok && i < 2
        invariant 0 <= i <= 2 && Valid()
        invariant ok ==> forall k :: 0 <= k < i ==>
          Installable(p, old(entries)[k]) && entries[k] == InstalledEntry(p, old(entries)[k])
        invariant ok ==> forall k :: i <= k < 2 ==> entries[k] == old(entries)[k]
        invariant Onward(ok || !(Installable(p, old(entries)[0]) && Installable(p, old(entries)[1])))
        decreases 2 - i, ok
      {
        ok := DeployEntry(p, i);
        if ok {
          i := i + 1;
        }
      }
    }

    // -------------------------------------------------------------------------------------------
    // Restore
    // -------------------------------------------------------------------------------------------

    /** Snapshot both entries before a restoration; here even the active loader may be missing. */
    method SnapshotForRestore() returns (snapshots: seq<Entry>)
      requires Valid()
      modifies this`script
      ensures snapshots == SnapshotRead(entries, old(script)) && |snapshots| == 2
      ensures script == Remaining(old(script), 6)
    {
      var first := SnapshotEntry(0, false);
      RemainingInTurn(old(script), 3, 3);
      var second := SnapshotEntry(1, false);
      return [first.value, second.value];
    }

    /** Make one entry native. A failed inspection of a present file is an error. */
    method RestoreEntry(p: Package, i: nat) returns (ok: bool)
      requires Valid() && i < 2
      modifies this
      ensures Valid()
      ensures entries[1 - i] == old(entries)[1 - i]
      ensures ok ==> Restorable(p, old(entries)[i]) && entries[i] == RestoredEntry(p, old(entries)[i])
      ensures Onward(ok || !Restorable(p, old(entries)[i]))
    {
      var shim := HoldsLocked(p.isLockedLoader, i, Active);
      if shim.None? {
        return false;
      }
      if shim.value {
        if entries[i].original.None? {
          return false;
        }
        var shimAgain := HoldsLocked(p.isLockedLoader, i, Original);
        if shimAgain != Some(false) {
          return false;
        }
        var native := HoldsX64(i, Original);
        if !native {
          return false;
        }
        var original := Read(i, Original);
        if original.None? {
          return false;
        }
        ok := Replace(i, Active, original.value);
        if !ok {
          return;
        }
      } else if entries[i].active.None? {
        return false;
      }
      var still := HoldsLocked(p.isLockedLoader, i, Active);
      if still != Some(false) {
        return false;
      }
      var restored := HoldsX64(i, Active);
      if !restored {
        return false;
      }
      var ours := HoldsLocked(p.isLockedIni, i, Ini);
      if ours.None? {
        return false;
      }
      ok := true;
      if ours.value {
        ok := Remove(i, Ini);
      }
    }

    /** Make both entries native, or put everything back. `Deployed` reports success. */
    method Restore(p: Package) returns (outcome: Outcome, ghost broken: Option<(seq<Entry>, seq<bool>)>)
      requires Valid()
      modifies this
      ensures Valid()
      ensures outcome != Refused
      ensures outcome == Deployed ==>
        forall i :: 0 <= i < 2 ==>
          Restorable(p, old(entries)[i]) && entries[i] == RestoredEntry(p, old(entries)[i])
      ensures outcome == RolledBack ==> entries == SnapshotRead(old(entries), old(script))
      ensures outcome == RolledBack ==> (entries == old(entries) <==> SnapshotIsTrue(old(entries), old(script)))
      ensures broken.Some? <==> outcome == RolledBack || outcome == RollbackIncomplete
      ensures broken.Some? ==> UndoneFrom(broken.value, SnapshotRead(old(entries), old(script)), outcome, entries)
      ensures Failures(Remaining(old(script), 6)) == 0 ==>
        outcome == if forall i :: 0 <= i < 2 ==> Restorable(p, old(entries)[i]) then Deployed else RolledBack
      ensures old(Failures(script)) <= 1 && (forall i :: 0 <= i < 2 ==> Restorable(p, old(entries)[i])) ==>
        outcome != RollbackIncomplete
    {
      broken := None;
      FailuresBehind(script, 6);
      var snapshots := SnapshotForRestore();
      SnapshotTruth(entries, old(script));
      var ok := RestoreBoth(p);
      if !ok {
        broken := Some((entries, script));
        FailuresBehind(script, AllRestoreOps(entries, snapshots));
        outcome := Rollback(snapshots);
        return;
      }
      return Deployed, broken;
    }

    /** Make the entries native in turn until one fails. */
    method RestoreBoth(p: Package) returns (ok: bool)
      requires Valid()
      modifies this
      ensures Valid()
      ensures ok ==> forall k :: 0 <= k < 2 ==>
        Restorable(p, old(entries)[k]) && entries[k] == RestoredEntry(p, old(entries)[k])
      ensures Onward(ok || !(Restorable(p, old(entries)[0]) && Restorable(p, old(entries)[1])))
    {
      ok := true;
      var i := 0;
      while ok && i < 2
        invariant 0 <= i <= 2 && Valid()
        invariant ok ==> forall k :: 0 <= k < i ==>
          Restorable(p, old(entries)[k]) && entries[k] == RestoredEntry(p, old(entries)[k])
        invariant ok ==> forall k :: i <= k < 2 ==> entries[k] == old(entries)[k]
        invariant Onward(ok || !(Restorable(p, old(entries)[0]) && Restorable(p, old(entries)[1])))
        decreases 2 - i, ok
      {
        ok := RestoreEntry(p, i);
        if ok {
          i := i + 1;
        }
      }
    }

    /** From two native entries and without failures, install then restore gives both loaders back. */
    method InstallThenRestore(p: Package) returns (installed: Outcome, restored: Outcome)
      requires Valid() && Failures(script) == 0 && VerifiedPackage(p)
      requires forall i :: 0 <= i < 2 ==> Installable(p, entries[i]) && !Locked(p, entries[i].active)
      modifies this
      ensures installed == Deployed && restored == Deployed
      ensures Valid() && forall i :: 0 <= i < 2 ==>
        && entries[i] == RestoredEntry(p, InstalledEntry(p, old(entries)[i]))
        && entries[i].active == entries[i].original == old(entries)[i].active && entries[i].ini == None
    {
      ghost var broken;
      FailuresBehind(script, 4);
      FailuresBehind(script, 6);
      installed, broken := Install(p);
      FailuresBehind(script, 6);
      RestoreUndoesInstall(p, old(entries)[0]);
      RestoreUndoesInstall(p, old(entries)[1]);
      restored, broken := Restore(p);
    }
  }

  /** A saved loader whose snapshot read fails is taken for missing. When the second entry then turns out not
      to be x64, the installation reports a successful rollback, and the saved loader is gone. */
  method FailedSnapshotReadLosesFile(p: Package, first: Entry, second: Entry) returns (esp: EspFiles, outcome: Outcome)
    requires VerifiedPackage(p) && Installable(p, first) && first.original.Some?
    requires second.active.Some? && second.active.value != p.loader && !IsX64(second.active.value)
    ensures outcome == RolledBack
    ensures esp.entries == [first.(original := None), second]
  {
    esp := new EspFiles(first, second, [true, false]);
    ghost var broken;
    outcome, broken := esp.Install(p);
  }
}
