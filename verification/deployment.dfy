/** Installing, rolling back and checking a release, on a disk where any single
    step may fail before or after it took effect and the process may be killed at
    any step. A killed process goes on in the model without touching the disk, so
    each contract below also speaks about every place it can be killed. */
module Deployment {
  import opened Wrappers
  import opened ReleaseDisk

  datatype Fate = Happens | FailsBefore | FailsAfter | KilledBefore | KilledAfter

  datatype Options = Options(
    binary: Bytes,
    binaryMode: nat,
    running: Bytes,
    built: string,
    version: string,
    sha: Hash,
    selectors: seq<Path>,
    session: string)

  datatype Command = InstallCommand(options: Options) | RollbackCommand | StatusCommand

  datatype Recovery = Nothing | Restored | Failed

  /** What a command reports: the selected state, a plain error, or an error that
      says whether compensation could be verified. */
  datatype Reply = Selected(state: Selected) | Rejected | Aborted(compensated: bool)

  function Release(o: Options): Path {
    ReleaseAt(o.version, o.sha)
  }

  function JournalFor(operation: Operation, active: Manifest, before: Option<Text>): Journal {
    Journal(operation, active, if before.Some? then Saved(TextSha(before.value)) else NoManifest)
  }

  predicate Executable(mode: nat) {
    && (mode % 2 == 1 || mode / 8 % 2 == 1 || mode / 64 % 2 == 1)  // 0o111
    && mode / 0x400 % 4 == 0  // neither setuid nor setgid
  }

  predicate Publishable(o: Options, d: Disk) {
    && Executable(o.binaryMode)
    && |o.binary| <= MAX_BINARY_BYTES
    && Sha(o.binary) == o.sha
    && (Release(o) in d.releases ==>
          d.releases[Release(o)].bytes == o.binary && d.releases[Release(o)].mode == EXECUTABLE_MODE)
  }

  /** The entry tells how to put the selector back, up to special permission bits. */
  predicate Records(d: Disk, e: Entry, index: nat) {
    && Get(d.selectors, e.path) != Some(Directory)
    && Wanted(ToPrevious, e) == MaskedOption(Get(d.selectors, e.path))
    && Restorable(e.previous, d.backups)
    && (e.previous.WasFile? ==> e.previous.backup.index == index && e.previous.mode < LOW_NINE_BITS)
  }

  predicate Recordable(d: Disk, path: Path, session: string, index: nat) {
    path in d.selectors ==>
      match d.selectors[path]
      case Link(_) => true
      case Directory => false
      case File(bytes, _) => |bytes| <= MAX_BINARY_BYTES && BackupId(session, index) !in d.backups
  }

  datatype Standing = Replaceable | Same | Blocked

  predicate IsActive(o: Options, m: Manifest) {
    m.state.Active? && m.Release() == Release(o)
  }

  function Paths(m: Manifest): seq<Path> {
    seq(|m.entries|, i requires 0 <= i < |m.entries| => m.entries[i].path)
  }

  /** The manifest file is missing or loads, so its bytes can be saved and restored. */
  predicate CanReplace(manifest: Option<Text>) {
    manifest.None? || (manifest.value.Doc? && ValidManifest(manifest.value.manifest))
  }

  predicate ValidOptions(o: Options) {
    && 1 <= |o.selectors| <= MAX_SELECTORS
    && (forall i :: 0 <= i < |o.selectors| ==> o.selectors[i].Name?)
    && (forall i, j :: 0 <= i < j < |o.selectors| ==> o.selectors[i] != o.selectors[j])
    && o.version == o.built
    && |o.binary| <= MAX_BINARY_BYTES && |o.running| <= MAX_BINARY_BYTES
    && Sha(o.binary) == o.sha && Sha(o.running) == o.sha
  }

  predicate Upgradable(o: Options, d: Disk) {
    d.manifest.None? ||
    (&& Healthy(d)
     && Paths(d.manifest.value.manifest) == o.selectors
     && !IsActive(o, d.manifest.value.manifest))
  }

  /** The release of `o` is already the active one, through the same selectors. */
  predicate Reinstalls(o: Options, d: Disk) {
    && d.manifest.Some? && Healthy(d)
    && Paths(d.manifest.value.manifest) == o.selectors
    && IsActive(o, d.manifest.value.manifest)
  }

  /** The release can be published, and every selector recorded. */
  predicate Preparable(o: Options, d: Disk) {
    && Publishable(o, d) && AllRecordable(o, d)
    && forall k :: 0 <= k < |o.selectors| && Get(d.selectors, o.selectors[k]).Some? ==>
         var node := d.selectors[o.selectors[k]];
         node.Link? && node.target.Name? ==> 0 < |node.target.text| <= 4096
  }

  /** `o` may be installed on `d`: nothing but a fault can then keep it from being
      installed, and nothing else is ever installed. */
  predicate Ready(o: Options, d: Disk) {
    d.journal.None? && ValidOptions(o) && Upgradable(o, d) && Preparable(o, d)
  }

  /** The release was rolled back before, and every selector still is. */
  predicate RolledBack(d: Disk) {
    d.manifest.Some? && Healthy(d) && d.manifest.value.manifest.state.PreviousActive?
  }

  /** `d` selects the release through every selector of `o`, remembers how each
      was on `base`, and is otherwise like `base`. */
  ghost predicate InstalledFrom(o: Options, base: Disk, d: Disk) {
    && base.journal.None? && d.journal.None?
    && d.manifest.Some? && d.manifest.value.Doc?
    && var m := d.manifest.value.manifest;
       && IsActive(o, m) && ValidManifest(m) && Paths(m) == o.selectors
       && Settled(d.selectors, m.entries, ToRelease(Release(o)))
       && SameElsewhere(base.selectors, d.selectors, m.entries)
       && forall k :: 0 <= k < |m.entries| ==>
            && Restorable(m.entries[k].previous, d.backups)
            && Wanted(ToPrevious, m.entries[k]) == MaskedOption(Get(base.selectors, m.entries[k].path))
  }

  /** `d` holds through every selector what it held before `base` was installed,
      and is otherwise like `base`. */
  ghost predicate RolledBackFrom(base: Disk, d: Disk) {
    && base.journal.None? && d.journal.None?
    && base.manifest.Some? && base.manifest.value.Doc?
    && var m := base.manifest.value.manifest;
       && m.state.Active? && ValidManifest(m)
       && d.manifest == Some(Doc(m.(state := PreviousActive)))
       && Settled(d.selectors, m.entries, ToPrevious)
       && SameElsewhere(base.selectors, d.selectors, m.entries)
  }

  /** A manifest that is active and can be rolled back. */
  predicate Reversible(d: Disk) {
    && Healthy(d)
    && var m := d.manifest.value.manifest;
       m.state.Active? && forall i :: 0 <= i < |m.entries| ==> Restorable(m.entries[i].previous, d.backups)
  }

  lemma ElsewhereGet(a: Selectors, b: Selectors, entries: seq<Entry>, path: Path)
    requires DistinctPaths(entries) && SameElsewhere(a, b, entries)
    requires forall i :: 0 <= i < |entries| ==> entries[i].path != path
    ensures Get(a, path) == Get(b, path)
  {
    SettleAt(a, entries, ToPrevious);
    SettleAt(b, entries, ToPrevious);
    assert Get(Settle(a, entries, ToPrevious), path) == Get(a, path);
    assert Get(Settle(b, entries, ToPrevious), path) == Get(b, path);
  }

  /** Rolling an installation back gives every selector its earlier kind, link
      target, bytes and low nine permission bits. Nothing at all has changed
      exactly when no replaced file had special permission bits. */
  lemma RollbackUndoesInstall(o: Options, base: Disk, installed: Disk, d: Disk)
    requires InstalledFrom(o, base, installed) && RolledBackFrom(installed, d)
    ensures SameMasked(base.selectors, d.selectors)
    ensures d.selectors == base.selectors <==> forall path :: path in o.selectors ==> Plain(base.selectors, path)
  {
    hide InstalledFrom, RolledBackFrom;
    forall path {
      RollbackUndoesAt(o, base, installed, d, path);
    }
    if forall path :: path in o.selectors ==> Plain(base.selectors, path) {
      SameSelectors(d.selectors, base.selectors);
    }
  }

  lemma RollbackUndoesAt(o: Options, base: Disk, installed: Disk, d: Disk, path: Path)
    requires InstalledFrom(o, base, installed) && RolledBackFrom(installed, d)
    ensures Get(d.selectors, path)
            == if path in o.selectors then MaskedOption(Get(base.selectors, path)) else Get(base.selectors, path)
  {
    hide SameElsewhere;
    var entries := installed.manifest.value.manifest.entries;
    if path in o.selectors {
      var k :| 0 <= k < |o.selectors| && o.selectors[k] == path;
      assert Paths(installed.manifest.value.manifest)[k] == entries[k].path;
    } else {
      forall k | 0 <= k < |entries| ensures entries[k].path != path {
        assert Paths(installed.manifest.value.manifest)[k] == o.selectors[k];
      }
      ElsewhereGet(base.selectors, installed.selectors, entries, path);
      ElsewhereGet(installed.selectors, d.selectors, entries, path);
    }
  }

  lemma OneMoved(a: Selectors, b: Selectors, entries: seq<Entry>, i: nat, node: Option<Node>)
    requires DistinctPaths(entries) && i < |entries| && (b == a || b == Put(a, entries[i].path, node))
    ensures SameElsewhere(a, b, entries)
    ensures forall k :: 0 <= k < |entries| && k != i ==> Get(b, entries[k].path) == Get(a, entries[k].path)
  {
    SettleForgets(a, b, entries, ToPrevious);
  }

  lemma EntryIsReady(d: Disk, i: nat)
    requires Loadable(d) && i < |d.journal.value.active.entries|
    ensures d.journal.Some?
    ensures var entries := d.journal.value.active.entries;
            && DistinctPaths(entries)
            && (Recoverable(d) ==> Get(d.selectors, entries[i].path) != Some(Directory) && Restorable(entries[i].previous, d.backups))
  {
  }

  /** Nothing but a fault can keep a committed release from being rolled back. */
  lemma CommittedIsReversible(d: Disk)
    requires d.journal.None? && IsActivated(Committed(d)) && CanRollBack(d) && Truthful(Committed(d))
    ensures Reversible(d)
  {
    var m := d.manifest.value.manifest;
    forall i | 0 <= i < |m.entries| ensures SelectorCorrect(d, m, m.entries[i]) {
      var e := m.entries[i];
      assert e in m.entries;
      assert Committed(d).selectors[e.path] == ShapeOf(d.selectors, d.outside, d.manifest, e.path);
    }
  }

  lemma RollsBackAlike(a: Disk, b: Disk)
    requires Committed(a) == Committed(b) && a.releases == b.releases && a.backups == b.backups
    ensures CanRollBack(a) <==> CanRollBack(b)
  {
    hide Committed;
  }

  /** `d` is what the command makes of `base` when it commits. */
  ghost predicate Outcome(command: Command, base: Disk, d: Disk) {
    match command
    case InstallCommand(o) => InstalledFrom(o, base, d)
    case RollbackCommand => RolledBackFrom(base, d)
    case StatusCommand => false
  }

  /** The command has something to commit on `base`, and may do so. */
  predicate Warranted(command: Command, base: Disk) {
    match command
    case InstallCommand(o) => Ready(o, base)
    case RollbackCommand => Reversible(base)
    case StatusCommand => false
  }

  lemma OpenedIsRecoverable(d: Disk, j: Journal)
    requires d.journal.None? && Prepared(d, j)
    ensures Recoverable(d.(journal := Some(j)))
  {
  }

  /** The manifest describes the release of `o` and how each selector is now. */
  predicate Prepares(m: Manifest, o: Options, d: Disk) {
    && ValidManifest(m) && IsActive(o, m) && Intact(d, m)
    && |m.entries| == |o.selectors|
    && forall k :: 0 <= k < |m.entries| ==> m.entries[k].path == o.selectors[k] && Records(d, m.entries[k], k)
  }

  lemma InstalledWhenDone(o: Options, base: Disk, recorded: Disk, d: Disk, payload: Manifest)
    requires base.journal.None? && d.journal.None? && Done(d, JournalFor(Install, payload, base.manifest))
    requires Prepares(payload, o, recorded)
    requires recorded.selectors == base.selectors && recorded.backups == d.backups
    requires SameElsewhere(base.selectors, d.selectors, payload.entries)
    ensures InstalledFrom(o, base, d)
  {
    assert Paths(payload) == o.selectors;
  }

  predicate AllRecordable(o: Options, d: Disk) {
    forall k :: 0 <= k < |o.selectors| ==> Recordable(d, o.selectors[k], o.session, k)
  }

  predicate AllBack(d: Disk, goal: Goal) {
    d.journal.Some? ==>
      forall i :: 0 <= i < |d.journal.value.active.entries| ==> Back(d, goal, d.journal.value.active.entries[i])
  }

  class Host {
    var disk: Disk
    var alive: bool
    var faults: nat  // failures and kills so far
    ghost var origin: Disk
    ghost var past: seq<Action>

    /** The disk is where a legal run from `origin` has led. */
    ghost predicate Valid()
      reads this
    {
      Legal(origin, past) && disk == Replay(origin, past)
    }

    /** The run goes on from where it was, and keeps what every run keeps. */
    twostate predicate Continues()
      reads this
    {
      && Valid()
      && origin == old(origin) && old(past) <= past
      && (Recoverable(old(disk)) ==> Recoverable(disk))
    }

    twostate predicate Kept()
      reads this
    {
      && Continues()
      && faults >= old(faults)
      && (alive ==> old(alive))
    }

    /** Nothing is committed: neither the committed state nor its history changes. */
    twostate predicate Quiet()
      reads this
    {
      && Committed(disk) == Committed(old(disk))
      && History(origin, past) == old(History(origin, past))
    }

    /** A read, which leaves the run where it is. */
    twostate predicate Reads()
      reads this
    {
      Kept() && disk == old(disk) && past == old(past)
    }

    /** One new committed state, which is on disk. */
    twostate predicate CommittedOnce()
      reads this
    {
      && disk.journal.None?
      && History(origin, past) == old(History(origin, past)) + [Committed(disk)]
    }

    constructor (start: Disk)
      ensures Valid() && disk == start && origin == start && alive && faults == 0
    {
      disk, alive, faults := start, true, 0;
      origin, past := start, [];
    }

    // ----- one step -----

    method Perform(a: Action) returns (ok: bool)
      requires Valid() && Enabled(a, disk)
      modifies this
      ensures Kept()
      ensures disk == old(disk) || disk == Apply(a, old(disk))
      ensures ok ==> disk == Apply(a, old(disk)) && faults == old(faults)
      ensures !ok ==> faults > old(faults)
      ensures Quiet()
              || (&& Commits(a, old(disk)) && disk == Apply(a, old(disk))
                  && History(origin, past) == old(History(origin, past)) + [Committed(disk)])
    {
      hide Enabled, Apply, Commits, Committed, Recoverable, Legal, Replay, History;
      var fate: Fate := *;
      ok := alive && fate.Happens?;
      if alive && (fate.Happens? || fate.FailsAfter? || fate.KilledAfter?) {
        StepKeeps(origin, past, a);
        disk, past := Apply(a, disk), past + [a];
      }
      if !ok {
        faults := faults + 1;
      }
      alive := alive && !fate.KilledBefore? && !fate.KilledAfter?;
    }

    /** A read, which changes nothing but may fail. */
    method Probe() returns (ok: bool)
      requires Valid()
      modifies this
      ensures Reads()
      ensures if ok then faults == old(faults) else faults > old(faults)
    {
      var fate: Fate := *;
      ok := alive && fate.Happens?;
      if !ok {
        faults := faults + 1;
      }
      alive := alive && !fate.KilledBefore? && !fate.KilledAfter?;
    }

    // ----- selectors under an open journal -----

    /** Entry `i` of the journal was to be given `node`, and nothing else changed. */
    twostate predicate Moved(i: nat, node: Option<Node>, ok: bool)
      reads this
      requires old(disk).journal.Some? && i < |old(disk).journal.value.active.entries|
    {
      var e := old(disk).journal.value.active.entries[i];
      && Kept()
      && Quiet()
      && (disk == old(disk) || disk == old(disk).(selectors := Put(old(disk).selectors, e.path, node)))
      && (ok ==> Get(disk.selectors, e.path) == node)
      && (!ok && Get(old(disk).selectors, e.path) != Some(Directory) && Restorable(e.previous, old(disk).backups)
          ==> faults > old(faults))
    }

    method AtomicLink(target: Path, i: nat) returns (ok: bool)
      requires Valid() && Loadable(disk) && i < |disk.journal.value.active.entries|
      requires var j := disk.journal.value; AllowedAt(disk, j, j.active.entries[i].path, Some(Link(target)), i)
      modifies this
      ensures Moved(i, Some(Link(target)), ok)
    {
      var path := disk.journal.value.active.entries[i].path;
      if Get(disk.selectors, path) == Some(Directory) {
        return false;
      }
      ok := Perform(SetSelector(path, Some(Link(target))));
    }

    method RestoreOne(i: nat) returns (ok: bool)
      requires Valid() && Loadable(disk) && i < |disk.journal.value.active.entries|
      modifies this
      ensures Moved(i, Wanted(ToPrevious, old(disk).journal.value.active.entries[i]), ok)
    {
      hide Committed, History, Recoverable, Legal, Replay;
      var e := disk.journal.value.active.entries[i];
      match e.previous
      case WasLink(target) =>
        ok := AtomicLink(target, i);
      case WasMissing =>
        ok := Probe();
        if !ok || e.path !in disk.selectors {
          return;
        }
        if disk.selectors[e.path].Directory? {
          return false;
        }
        assert AllowedAt(disk, disk.journal.value, e.path, None, i);
        ok := Perform(SetSelector(e.path, None));
      case WasFile(backup, sha, mode) =>
        ok := Probe();
        if !ok {
          return;
        }
        if !Restorable(e.previous, disk.backups) || Get(disk.selectors, e.path) == Some(Directory) {
          return false;
        }
        var saved := Some(File(disk.backups[backup], mode));
        assert AllowedAt(disk, disk.journal.value, e.path, saved, i);
        ok := Perform(SetSelector(e.path, saved));
    }

    /** Only selectors and the manifest may have changed, and nothing is committed. */
    twostate predicate Moving()
      reads this
    {
      && Kept()
      && Quiet()
      && disk == old(disk).(selectors := disk.selectors, manifest := disk.manifest)
      && (disk.journal.Some? ==>
            SameElsewhere(old(disk).selectors, disk.selectors, disk.journal.value.active.entries))
    }

    ghost predicate Reached(goal: Goal, i: int)
      reads this
    {
      && disk.journal.Some? && 0 <= i < |disk.journal.value.active.entries|
      && var e := disk.journal.value.active.entries[i];
         Get(disk.selectors, e.path) == Wanted(goal, e)
    }

    /** Bring entry `i` to the goal; every other selector stays as it is. */
    method Reach(goal: Goal, i: nat) returns (ok: bool)
      requires Valid() && Loadable(disk) && i < |disk.journal.value.active.entries|
      requires goal == ToPrevious || goal == ToRelease(disk.journal.value.active.Release())
      modifies this
      ensures Moving() && disk.manifest == old(disk).manifest
      ensures ok ==> Reached(goal, i)
      ensures forall k :: 0 <= k < |disk.journal.value.active.entries| && k != i && old(Reached(goal, k)) ==> Reached(goal, k)
      ensures Recoverable(old(disk)) && !ok ==> faults > old(faults)
    {
      hide Committed, History, Legal, Replay, SameElsewhere, Recoverable, Loadable, Restorable, DistinctPaths, Put;
      EntryIsReady(disk, i);
      match goal {
        case ToRelease(release) => ok := AtomicLink(release, i);
        case ToPrevious => ok := RestoreOne(i);
      }
      var entries := disk.journal.value.active.entries;
      OneMoved(old(disk).selectors, disk.selectors, entries, i, Wanted(goal, entries[i]));
    }

    // ----- undoing -----

    /** Put every entry back, last one first, and carry on past failures: each
        entry that is not back has cost a fault of its own. */
    method RestoreSelectors(goal: Goal) returns (verified: bool, ghost missed: set<nat>)
      requires Valid() && Loadable(disk)
      requires goal == UndoGoal(disk.journal.value)
      modifies this
      ensures Moving() && disk.manifest == old(disk).manifest
      ensures verified <==> missed == {}
      ensures forall i :: 0 <= i < |disk.journal.value.active.entries| && i !in missed ==> Reached(goal, i)
      ensures Recoverable(old(disk)) ==> |missed| <= faults - old(faults)
    {
      verified, missed := true, {};
      var entries := disk.journal.value.active.entries;
      var i := |entries|;
      while i > 0
        invariant 0 <= i <= |entries|
        invariant Moving() && disk.manifest == old(disk).manifest
        invariant verified <==> missed == {}
        invariant forall k :: k in missed ==> i <= k
        invariant forall k :: i <= k < |entries| && k !in missed ==> Reached(goal, k)
        invariant Recoverable(old(disk)) ==> |missed| <= faults - old(faults)
      {
        i := i - 1;
        var ok := Reach(goal, i);
        if !ok {
          verified, missed := false, missed + {i};
        }
      }
    }

    method RestoreManifest(before: Option<Text>) returns (verified: bool)
      requires Valid() && Loadable(disk) && before == BeforeText(disk.journal.value.before)
      modifies this
      ensures Moving() && disk.selectors == old(disk).selectors
      ensures verified ==> disk.manifest == before
      ensures faults == old(faults) ==> verified
    {
      if before.None? && disk.manifest.None? {
        verified := Probe();
      } else {
        verified := Perform(SetManifest(before));
      }
      var ok := Probe();
      verified := verified && ok && disk.manifest == before;
    }

    method CheckSelectors(goal: Goal) returns (verified: bool)
      requires Valid() && Loadable(disk)
      modifies this
      ensures Reads()
      ensures verified ==> AllBack(disk, goal)
      ensures AllBack(disk, goal) && faults == old(faults) ==> verified
    {
      hide Back, Recoverable, Valid;
      verified := true;
      var entries := disk.journal.value.active.entries;
      for i := 0 to |entries|
        invariant Reads()
        invariant verified ==> forall k :: 0 <= k < i ==> Back(disk, goal, entries[k])
        invariant AllBack(disk, goal) && faults == old(faults) ==> verified
      {
        var ok := Probe();
        verified := verified && ok && Back(disk, goal, entries[i]);
      }
    }

    /** Undo everything the journal covers. `verified` means it is undone; without
        verification every selector has still been tried. */
    method Compensate(goal: Goal, before: Option<Text>) returns (verified: bool, ghost missed: set<nat>)
      requires Valid() && Loadable(disk)
      requires goal == UndoGoal(disk.journal.value) && before == BeforeText(disk.journal.value.before)
      modifies this
      ensures Moving()
      ensures verified ==> missed == {} && Undone(disk, disk.journal.value)
      ensures Recoverable(old(disk)) && faults == old(faults) ==> verified
      ensures forall i :: 0 <= i < |disk.journal.value.active.entries| && i !in missed ==> Reached(goal, i)
      ensures Recoverable(old(disk)) ==> |missed| <= faults - old(faults)
    {
      hide Committed, History, Recoverable, SameElsewhere, Back, Wanted, Valid;
      verified, missed := RestoreSelectors(goal);
      ghost var all := |disk.journal.value.active.entries|;
      if verified {
        AllReached(goal);
      }
      var written := RestoreManifest(before);
      if verified && Recoverable(disk) {
        SettledIsBack(disk, goal);
      }
      var checked := CheckSelectors(goal);
      verified := verified && written && checked;
      assert forall i :: 0 <= i < all && i !in missed ==> Reached(goal, i);
    }

    lemma AllReached(goal: Goal)
      requires disk.journal.Some?
      requires forall i :: 0 <= i < |disk.journal.value.active.entries| ==> Reached(goal, i)
      ensures Settled(disk.selectors, disk.journal.value.active.entries, goal)
    {
      var entries := disk.journal.value.active.entries;
      forall i | 0 <= i < |entries| ensures Get(disk.selectors, entries[i].path) == Wanted(goal, entries[i]) {
        assert Reached(goal, i);
      }
    }

    // ----- the journal -----

    method CleanupOrphan() returns (ok: bool)
      requires Valid() && disk.journal.None?
      modifies this
      ensures Kept() && Quiet()
      ensures disk == old(disk) || disk == old(disk).(spare := None)
      ensures ok ==> disk == old(disk).(spare := None)
      ensures faults == old(faults) ==> ok
    {
      if disk.spare.None? {
        ok := Probe();
      } else {
        ok := Perform(DropSpare);
      }
    }

    /** Open a journal for `active` over the manifest bytes `before`. */
    method BeginRecovery(operation: Operation, active: Manifest, before: Option<Text>) returns (ok: bool)
      requires Valid()
      requires disk.journal.None? ==> Prepared(disk.(spare := before), JournalFor(operation, active, before))
      modifies this
      ensures Kept() && Quiet()
      ensures old(disk).journal.Some? ==> !ok && disk == old(disk)
      ensures disk == old(disk).(spare := disk.spare)
              || disk == old(disk).(spare := before, journal := Some(JournalFor(operation, active, before)))
      ensures ok ==> disk == old(disk).(spare := before, journal := Some(JournalFor(operation, active, before)))
      ensures old(disk).journal.None? && faults == old(faults) ==> ok
    {
      hide Committed, History, Recoverable, Prepared, Legal, Replay;
      ok := Probe();
      if !ok || disk.journal.Some? {
        return false;
      }
      ok := CleanupOrphan();
      if !ok {
        return;
      }
      if before.Some? {
        ok := Perform(WriteSpare(before.value));
        if !ok {
          return;
        }
      }
      assert disk == old(disk).(spare := before);
      ok := Perform(OpenJournal(JournalFor(operation, active, before)));
    }

    /** Remove the journal, which is the commit point of a completed operation.
        It can fail after the journal is gone. */
    method ClearRecovery() returns (ok: bool)
      requires Valid() && Enabled(CloseJournal, disk)
      modifies this
      ensures Kept()
      ensures disk == old(disk) || disk == old(disk).(journal := None, spare := disk.spare)
      ensures ok ==> disk.journal.None?
      ensures faults == old(faults) ==> ok && disk.spare.None?
      ensures Undone(old(disk), old(disk).journal.value) ==> Quiet()
      ensures Quiet() || CommittedOnce()
    {
      hide Committed, History, Settle, Recoverable;
      ok := Perform(CloseJournal);
      if ok {
        var _ := CleanupOrphan();
      }
    }

    /** Undo whatever an interrupted command left behind. */
    method RecoverInterrupted() returns (r: Recovery)
      requires Valid()
      modifies this
      ensures Kept() && Quiet()
      ensures disk == old(disk).(selectors := disk.selectors, manifest := disk.manifest, journal := disk.journal, spare := disk.spare)
      ensures !r.Failed? ==> disk.journal.None?
      ensures r.Restored? ==> Loadable(old(disk)) && Undone(disk, old(disk).journal.value)
      ensures r.Nothing? ==> disk == old(disk).(spare := None)
      ensures old(disk).journal.None? ==> !r.Restored? && disk == old(disk).(spare := disk.spare)
      ensures old(disk).journal.Some? && !Loadable(old(disk)) ==> r.Failed? && disk == old(disk)
      ensures old(disk).journal.Some? ==>
                disk.journal == old(disk).journal || (disk.journal.None? && Undone(disk, old(disk).journal.value))
      ensures old(disk).journal.Some? ==>
                SameElsewhere(old(disk).selectors, disk.selectors, old(disk).journal.value.active.entries)
      ensures Recoverable(old(disk)) && faults == old(faults) ==> !r.Failed? && disk.spare.None?
    {
      var ok := Probe();
      if !ok {
        return Failed;
      }
      if disk.journal.None? {
        ok := CleanupOrphan();
        return if ok then Nothing else Failed;
      }
      ok := Probe();
      if !ok || !Loadable(disk) {
        return Failed;
      }
      var j := disk.journal.value;
      var verified, _ := Compensate(UndoGoal(j), BeforeText(j.before));
      if !verified {
        return Failed;
      }
      ok := ClearRecovery();
      return if ok then Restored else Failed;
    }

    // ----- status -----

    method LoadManifest() returns (loaded: Option<Manifest>)
      requires Valid()
      modifies this
      ensures Reads()
      ensures loaded.Some? ==> disk.manifest == Some(Doc(loaded.value)) && ValidManifest(loaded.value)
      ensures disk.manifest.Some? && CanReplace(disk.manifest) && faults == old(faults) ==> loaded.Some?
    {
      var ok := Probe();
      if !ok || disk.manifest.None? || disk.manifest.value.Junk? || !ValidManifest(disk.manifest.value.manifest) {
        return None;
      }
      return Some(disk.manifest.value.manifest);
    }

    /** The selected state, reported exactly when every check passes. */
    method StatusForRoot() returns (state: Option<Selected>)
      requires Valid()
      modifies this
      ensures Reads()
      ensures state.Some? ==> Healthy(disk) && state.value == disk.manifest.value.manifest.state
      ensures Healthy(disk) && faults == old(faults) ==> state.Some?
    {
      var loaded := LoadManifest();
      if loaded.None? {
        return None;
      }
      var m := loaded.value;
      var ok := Probe();
      if !ok || !Intact(disk, m) {
        return None;
      }
      var correct := true;
      for i := 0 to |m.entries|
        invariant Reads()
        invariant correct ==> forall k :: 0 <= k < i ==> SelectorCorrect(disk, m, m.entries[k])
        invariant Healthy(disk) && faults == old(faults) ==> correct
      {
        ok := Probe();
        correct := correct && ok && SelectorCorrect(disk, m, m.entries[i]);
      }
      if correct {
        return Some(m.state);
      }
      return None;
    }

    method Status() returns (reply: Reply)
      requires Valid()
      modifies this
      ensures Kept() && Quiet()
      ensures reply.Selected? ==> disk.journal.None? && Healthy(disk) && reply.state == disk.manifest.value.manifest.state
      ensures !reply.Aborted?
      ensures Recoverable(old(disk)) && faults == old(faults) ==>
                && disk.journal.None? && disk.spare.None?
                && (old(disk).journal.None? ==> disk == old(disk).(spare := None))
                && (old(disk).journal.Some? ==> Undone(disk, old(disk).journal.value))
                && (Healthy(disk) ==> reply == Selected(disk.manifest.value.manifest.state))
                && (!Healthy(disk) ==> reply == Rejected)
    {
      var r := RecoverInterrupted();
      if r.Failed? {
        return Rejected;
      }
      var state := StatusForRoot();
      return if state.Some? then Selected(state.value) else Rejected;
    }
  
    // ----- install -----

    /** Publish the release once; an existing one must be the very same bytes. */
    method CopyRelease(o: Options) returns (ok: bool)
      requires Valid() && disk.journal.None?
      modifies this
      ensures Kept() && Quiet()
      ensures disk == old(disk).(releases := disk.releases)
      ensures KeepsArtifacts(old(disk), disk)
      ensures ok ==> forall m: Manifest :: m.version == o.version && m.sha == o.sha ==> Intact(disk, m)
      ensures ok ==> Publishable(o, old(disk))
      ensures Publishable(o, old(disk)) && faults == old(faults) ==> ok
    {
      ok := Probe();
      if !ok || !Executable(o.binaryMode) || |o.binary| > MAX_BINARY_BYTES || Sha(o.binary) != o.sha {
        return false;
      }
      if Release(o) in disk.releases {
        var binary := disk.releases[Release(o)];
        return Sha(binary.bytes) == o.sha && |binary.bytes| <= MAX_BINARY_BYTES && binary.mode == EXECUTABLE_MODE;
      }
      ok := Perform(PublishRelease(Release(o), o.binary));
    }

    /** Record what a selector holds now; a regular file is copied to a backup. */
    method RecordPrevious(path: Path, session: string, index: nat) returns (previous: Option<Previous>)
      requires Valid() && disk.journal.None?
      modifies this
      ensures Kept() && Quiet()
      ensures disk == old(disk).(backups := disk.backups)
      ensures KeepsArtifacts(old(disk), disk)
      ensures forall id :: id in disk.backups && id !in old(disk).backups ==> id == BackupId(session, index)
      ensures previous.Some? ==> Records(disk, Entry(path, previous.value), index)
      ensures previous.Some? ==> Recordable(old(disk), path, session, index)
      ensures Recordable(old(disk), path, session, index) && faults == old(faults) ==> previous.Some?
    {
      var ok := Probe();
      if !ok {
        return None;
      }
      if path !in disk.selectors {
        return Some(WasMissing);
      }
      match disk.selectors[path]
      case Link(target) => return Some(WasLink(target));
      case Directory => return None;
      case File(bytes, mode) =>
        var id := BackupId(session, index);
        if id in disk.backups || |bytes| > MAX_BINARY_BYTES {
          return None;
        }
        ok := Perform(SaveBackup(id, bytes));
        return if ok then Some(WasFile(id, Sha(bytes), mode % LOW_NINE_BITS)) else None;
    }

    method RecordAll(o: Options) returns (entries: Option<seq<Entry>>)
      requires Valid() && disk.journal.None?
      modifies this
      ensures Kept() && Quiet()
      ensures disk == old(disk).(backups := disk.backups)
      ensures entries.Some? ==>
                && |entries.value| == |o.selectors|
                && forall k :: 0 <= k < |entries.value| ==>
                     entries.value[k].path == o.selectors[k] && Records(disk, entries.value[k], k)
      ensures entries.Some? ==> AllRecordable(o, old(disk))
      ensures AllRecordable(o, old(disk)) && faults == old(faults) ==> entries.Some?
    {
      hide Committed, History, Recoverable, Legal, Replay;
      var done: seq<Entry> := [];
      for i := 0 to |o.selectors|
        invariant Kept() && Quiet()
        invariant disk == old(disk).(backups := disk.backups) && old(disk).backups.Keys <= disk.backups.Keys
        invariant forall k :: 0 <= k < i ==> Recordable(old(disk), o.selectors[k], o.session, k)
        invariant |done| == i
        invariant forall k :: 0 <= k < i ==> done[k].path == o.selectors[k] && Records(disk, done[k], k)
        invariant forall id :: id in disk.backups && id !in old(disk).backups ==> id.session == o.session && id.index < i
      {
        var previous := RecordPrevious(o.selectors[i], o.session, i);
        if previous.None? {
          return None;
        }
        done := done + [Entry(o.selectors[i], previous.value)];
      }
      return Some(done);
    }
  
    // ----- carrying an operation through -----

    /** Take every entry of the open journal to the goal, stopping at a failure. */
    method MoveAll(goal: Goal) returns (ok: bool)
      requires Valid() && Loadable(disk) && goal == DoGoal(disk.journal.value)
      modifies this
      ensures Moving() && disk.manifest == old(disk).manifest
      ensures ok ==> Settled(disk.selectors, disk.journal.value.active.entries, goal)
      ensures Recoverable(old(disk)) && faults == old(faults) ==> ok
    {
      var entries := disk.journal.value.active.entries;
      for i := 0 to |entries|
        invariant Moving() && disk.manifest == old(disk).manifest
        invariant forall k :: 0 <= k < i ==> Reached(goal, k)
      {
        ok := Reach(goal, i);
        if !ok {
          return false;
        }
      }
      AllReached(goal);
      return true;
    }

    /** What became of an operation whose journal was `j` on the old disk: it is
        undone or can be undone, or it is committed; a verified compensation means
        it is undone, and success means it is committed. */
    twostate predicate Resolved(j: Journal, reply: Reply)
      reads this
    {
      && Kept()
      && disk == old(disk).(selectors := disk.selectors, manifest := disk.manifest, journal := disk.journal, spare := disk.spare)
      && SameElsewhere(old(disk).selectors, disk.selectors, j.active.entries)
      && (Quiet() || (CommittedOnce() && Done(disk, j)))
      && (reply == Aborted(true) ==> disk.journal.None? && Undone(disk, j) && Quiet())
      && (reply.Selected? ==>
            disk.journal.None? && Done(disk, j) && Healthy(disk) && reply.state == After(j).state)
    }

    /** Compensation after a failed step. The reply says whether it is verified: only
        a recovery that found the journal and cleared it counts. */
    method Abort() returns (reply: Reply)
      requires Valid() && Loadable(disk)
      modifies this
      ensures reply.Aborted? && Resolved(old(disk).journal.value, reply)
      ensures Quiet()
      ensures Recoverable(old(disk)) && faults == old(faults) ==> reply == Aborted(true)
    {
      var r := RecoverInterrupted();
      return Aborted(r.Restored?);
    }

    /** Close the journal of an operation that is done. When closing fails, a
        recovery undoes it, unless the journal is already gone: then the operation
        is committed although an error is reported. So it is when the journal is
        closed and only the status check that follows fails. */
    method CloseDone() returns (reply: Reply)
      requires Valid() && Recoverable(disk) && disk.journal.Some? && Done(disk, disk.journal.value) && Healthy(disk)
      modifies this
      ensures Resolved(old(disk).journal.value, reply)
      ensures faults == old(faults) ==> reply.Selected?
    {
      hide Committed, History, Settle, Valid;
      var cleared := ClearRecovery();
      if !cleared {
        var r := RecoverInterrupted();
        return Aborted(r.Restored?);
      }
      assert Healthy(disk);
      var state := StatusForRoot();
      return if state.Some? then Selected(state.value) else Rejected;
    }

    /** Write the manifest, check, and close the journal. */
    method Complete() returns (reply: Reply)
      requires Valid() && Recoverable(disk) && disk.journal.Some?
      requires Settled(disk.selectors, disk.journal.value.active.entries, DoGoal(disk.journal.value))
      modifies this
      ensures Resolved(old(disk).journal.value, reply)
      ensures faults == old(faults) ==> reply.Selected?
    {
      hide Committed, History, Settle, Valid;
      var j := disk.journal.value;
      var written := Perform(SetManifest(Some(Doc(After(j)))));
      if !written {
        reply := Abort();
        return;
      }
      DoneIsHealthy(disk);
      var checked := StatusForRoot();
      if checked.None? {
        reply := Abort();
        return;
      }
      reply := CloseDone();
    }
  
    // ----- the commands -----

    /** Under the lock and after recovery: may `o` be installed over what is there?
        `Same` is the early success for a release that is already active. */
    method CheckCurrent(o: Options) returns (standing: Standing)
      requires Valid() && disk.journal.None?
      modifies this
      ensures Reads()
      ensures standing.Replaceable? ==>
                disk.manifest.None? || (Healthy(disk) && Paths(disk.manifest.value.manifest) == o.selectors)
      ensures standing.Replaceable? ==> Upgradable(o, disk)
      ensures standing.Same? ==> Reinstalls(o, disk)
      ensures faults == old(faults) ==>
                (standing.Replaceable? <==> Upgradable(o, disk)) && (standing.Same? <==> Reinstalls(o, disk))
    {
      var ok := Probe();
      if !ok {
        return Blocked;
      }
      if disk.manifest.None? {
        return Replaceable;
      }
      var loaded := LoadManifest();
      if loaded.None? {
        return Blocked;
      }
      var state := StatusForRoot();
      if state.None? || Paths(loaded.value) != o.selectors {
        return Blocked;
      }
      if loaded.value.state.Active? && loaded.value.version == o.version && loaded.value.sha == o.sha {
        state := StatusForRoot();
        return if state.Some? then Same else Blocked;
      }
      ok := Probe();
      return if ok then Replaceable else Blocked;
    }

    /** Publish the release and record every selector: the manifest to install. */
    method Prepare(o: Options) returns (payload: Option<Manifest>)
      requires Valid() && disk.journal.None?
      modifies this
      ensures Kept() && Quiet()
      ensures disk == old(disk).(backups := disk.backups, releases := disk.releases)
      ensures payload.Some? ==> Prepares(payload.value, o, disk)
      ensures payload.Some? ==> Preparable(o, old(disk))
      ensures Ready(o, old(disk)) && faults == old(faults) ==> payload.Some?
    {
      hide Committed, History, Valid, Recoverable;
      var ok := CopyRelease(o);
      if !ok {
        return None;
      }
      var entries := RecordAll(o);
      if entries.None? {
        return None;
      }
      var m := Manifest(Active, o.version, o.sha, entries.value);
      return if ValidManifest(m) then Some(m) else None;
    }

    /** Journal the new manifest and carry the installation through. */
    method Switch(payload: Manifest) returns (reply: Reply)
      requires Valid() && disk.journal.None? && CanReplace(disk.manifest)
      requires ValidManifest(payload) && payload.state.Active? && Intact(disk, payload)
      requires forall k :: 0 <= k < |payload.entries| ==> Records(disk, payload.entries[k], k)
      modifies this
      ensures Resolved(JournalFor(Install, payload, old(disk).manifest), reply)
      ensures faults == old(faults) ==> reply.Selected?
    {
      hide Committed, History, Settle, Valid;
      var before := disk.manifest;
      ghost var j := JournalFor(Install, payload, before);
      OpenedIsRecoverable(disk.(spare := before), j);
      var ok := BeginRecovery(Install, payload, before);
      if !ok {
        return Rejected;
      }
      ok := MoveAll(DoGoal(disk.journal.value));
      if !ok {
        reply := Abort();
        return;
      }
      reply := Complete();
    }

    /** Publish, record, and switch: what installing comes to once the current
        installation has been found replaceable. */
    method InstallOver(o: Options) returns (reply: Reply)
      requires Valid() && disk.journal.None? && ValidOptions(o) && Upgradable(o, disk)
      modifies this
      ensures Kept()
      ensures Quiet() || (CommittedOnce() && Ready(o, old(disk)) && InstalledFrom(o, old(disk), disk))
      ensures reply == Aborted(true) ==> disk.journal.None? && Quiet()
      ensures reply.Selected? ==>
                && disk.journal.None? && Healthy(disk) && reply.state.Active?
                && IsActive(o, disk.manifest.value.manifest)
                && Ready(o, old(disk)) && InstalledFrom(o, old(disk), disk)
      ensures faults == old(faults) ==> (reply.Selected? <==> Ready(o, old(disk))) && disk.journal.None?
    {
      hide Committed, History, Settle, Valid, Settled, InstalledFrom, Done, Preparable;
      ghost var base := disk;
      var payload := Prepare(o);
      if payload.None? {
        return Rejected;
      }
      ghost var recorded := disk;
      reply := Switch(payload.value);
      if disk.journal.None? && Done(disk, JournalFor(Install, payload.value, base.manifest)) {
        InstalledWhenDone(o, base, recorded, disk, payload.value);
      }
    }

    /** Select a release through every selector, or leave the selection as it was. */
    method InstallRelease(o: Options) returns (reply: Reply, ghost base: Disk)
      requires Valid()
      modifies this
      ensures Kept()
      ensures Committed(base) == Committed(old(disk))
      ensures old(disk).journal.None? ==> base.selectors == old(disk).selectors && base.manifest == old(disk).manifest
      ensures Quiet() || (CommittedOnce() && Ready(o, base) && InstalledFrom(o, base, disk))
      ensures reply == Aborted(true) ==> disk.journal.None? && Quiet()
      ensures reply.Selected? ==>
                && disk.journal.None? && Healthy(disk) && reply.state.Active?
                && IsActive(o, disk.manifest.value.manifest)
                && ValidOptions(o)
                && if Reinstalls(o, base) then disk == base else Ready(o, base) && InstalledFrom(o, base, disk)
      ensures base.manifest.Some? && !(Healthy(base) && Paths(base.manifest.value.manifest) == o.selectors) ==>
                Quiet() && !reply.Selected?
      ensures Recoverable(old(disk)) && faults == old(faults) ==>
                (reply.Selected? <==> ValidOptions(o) && (Ready(o, base) || Reinstalls(o, base)))
                && (ValidOptions(o) ==> base.journal.None? && disk.journal.None?)
      ensures !ValidOptions(o) ==> reply == Rejected && disk == base == old(disk)
    {
      hide Committed, History, Settle, Valid, Settled, InstalledFrom, Done, Preparable, ValidOptions, Undone, SameElsewhere;
      base := disk;
      if !ValidOptions(o) {
        return Rejected, disk;
      }
      var r := RecoverInterrupted();
      base := disk;
      if r.Failed? {
        return Rejected, disk;
      }
      var standing := CheckCurrent(o);
      if standing.Same? {
        return Selected(Active), disk;
      }
      if standing.Blocked? {
        return Rejected, disk;
      }
      reply := InstallOver(o);
    }
  
    /** Every selector resolves to the release and every backup has its bytes. */
    method CheckReversible(m: Manifest) returns (ok: bool)
      requires Valid() && ValidManifest(m) && m.state.Active? && disk.manifest == Some(Doc(m))
      modifies this
      ensures Reads()
      ensures ok ==> Reversible(disk)
      ensures Reversible(disk) && faults == old(faults) ==> ok
    {
      ok := Probe();
      if !ok || !Intact(disk, m) {
        return false;
      }
      for i := 0 to |m.entries|
        invariant ok && Reads()
        invariant forall k :: 0 <= k < i ==>
                    SelectorCorrect(disk, m, m.entries[k]) && Restorable(m.entries[k].previous, disk.backups)
      {
        ok := Probe();
        if !ok || !SelectorCorrect(disk, m, m.entries[i]) || !Restorable(m.entries[i].previous, disk.backups) {
          return false;
        }
      }
    }

    /** Check and roll back the installation that is there, without a journal. */
    method RollBackHere() returns (reply: Reply)
      requires Valid() && disk.journal.None?
      modifies this
      ensures Kept()
      ensures Quiet() || (CommittedOnce() && Reversible(old(disk)) && RolledBackFrom(old(disk), disk))
      ensures reply == Aborted(true) ==> disk.journal.None? && Quiet()
      ensures RolledBack(old(disk)) ==> disk == old(disk)
      ensures reply.Selected? ==>
                && disk.journal.None? && reply.state.PreviousActive? && RolledBack(disk)
                && (RolledBack(old(disk)) || (Reversible(old(disk)) && RolledBackFrom(old(disk), disk)))
      ensures faults == old(faults) ==>
                (reply.Selected? <==> RolledBack(old(disk)) || Reversible(old(disk))) && disk.journal.None?
    {
      hide Committed, History, Settle, Valid, Settled;
      var loaded := LoadManifest();
      if loaded.None? {
        return Rejected;
      }
      var m := loaded.value;
      if m.state.PreviousActive? {
        var state := StatusForRoot();
        return if state.Some? then Selected(state.value) else Rejected;
      }
      var ok := CheckReversible(m);
      if !ok {
        return Rejected;
      }
      reply := Unswitch(m);
    }

    /** Put back what every selector held before the active installation, or leave
        the installation active. */
    method RollBack() returns (reply: Reply, ghost base: Disk)
      requires Valid()
      modifies this
      ensures Kept()
      ensures Committed(base) == Committed(old(disk))
      ensures old(disk).journal.None? ==> base.selectors == old(disk).selectors && base.manifest == old(disk).manifest
      ensures Quiet() || (CommittedOnce() && Reversible(base) && RolledBackFrom(base, disk))
      ensures reply == Aborted(true) ==> disk.journal.None? && Quiet()
      ensures reply.Selected? ==>
                && disk.journal.None? && reply.state.PreviousActive? && RolledBack(disk)
                && if RolledBack(base) then disk == base else Reversible(base) && RolledBackFrom(base, disk)
      ensures Recoverable(old(disk)) && faults == old(faults) ==>
                (reply.Selected? <==> RolledBack(base) || Reversible(base)) && base.journal.None? && disk.journal.None?
      ensures old(disk).journal.None? && Reversible(old(disk)) && faults == old(faults) ==>
                reply.Selected? && RolledBackFrom(base, disk)
      ensures Recoverable(old(disk)) && CanRollBack(old(disk)) && Truthful(Committed(old(disk)))
              && IsActivated(Committed(old(disk))) && faults == old(faults) ==>
                reply.Selected? && RolledBackFrom(base, disk)
      ensures old(disk).journal.None? && RolledBack(old(disk)) ==>
                disk == old(disk).(spare := disk.spare) && (faults == old(faults) ==> reply.Selected?)
    {
      hide Committed, History, Settle, Valid, Settled, CanRollBack, Truthful, IsActivated, RolledBackFrom, SameElsewhere, Undone;
      base := disk;
      var r := RecoverInterrupted();
      base := disk;
      if r.Failed? {
        return Rejected, disk;
      }
      RollsBackAlike(old(disk), disk);
      if IsActivated(Committed(disk)) && CanRollBack(disk) && Truthful(Committed(disk)) {
        CommittedIsReversible(disk);
      }
      reply := RollBackHere();
    }

    /** Journal the rollback and carry it through. */
    method Unswitch(m: Manifest) returns (reply: Reply)
      requires Valid() && disk.journal.None? && disk.manifest == Some(Doc(m)) && Reversible(disk)
      modifies this
      ensures Resolved(JournalFor(Rollback, m, Some(Doc(m))), reply)
      ensures faults == old(faults) ==> reply.Selected?
    {
      hide Committed, History, Settle, Valid;
      var ok := Probe();
      if !ok {
        return Rejected;
      }
      ghost var j := JournalFor(Rollback, m, Some(Doc(m)));
      OpenedIsRecoverable(disk.(spare := disk.manifest), j);
      ok := BeginRecovery(Rollback, m, disk.manifest);
      if !ok {
        return Rejected;
      }
      ok := MoveAll(DoGoal(disk.journal.value));
      if !ok {
        reply := Abort();
        return;
      }
      reply := Complete();
    }
  
    // ----- whole lifetimes -----

    /** The run since then has kept every release and backup, and every committed
        state; `commands` processes have added at most one state each. */
    twostate predicate Prolongs(commands: nat)
      reads this
    {
      && Continues() && Recoverable(disk)
      && KeepsArtifacts(old(disk), disk)
      && old(History(origin, past)) <= History(origin, past)
      && |History(origin, past)| <= |old(History(origin, past))| + commands
    }

    /** One command in a process of its own. */
    method Run(command: Command) returns (ghost base: Disk)
      requires Valid() && Recoverable(disk)
      modifies this
      ensures Prolongs(1)
      ensures Quiet() || (CommittedOnce() && Warranted(command, base) && Outcome(command, base, disk))
      ensures Committed(base) == Committed(old(disk))
      ensures faults == old(faults) && Warranted(command, base) ==> Outcome(command, base, disk)
    {
      hide Committed, History, Settle, Legal, Replay, Recoverable;
      alive := true;
      base := disk;
      match command {
        case InstallCommand(o) => var _, b := InstallRelease(o); base := b;
        case RollbackCommand => var _, b := RollBack(); base := b;
        case StatusCommand => var _ := Status();
      }
      SinceKeepsArtifacts();
    }

    /** Any number of recoveries, each with any faults and killed anywhere. */
    method RecoverTimes(times: nat) returns (r: Recovery)
      requires Valid() && Recoverable(disk)
      modifies this
      ensures Continues() && Quiet()
      ensures old(disk).journal.None? ==> disk == old(disk).(spare := disk.spare)
      ensures !r.Failed? ==> disk.journal.None?
    {
      hide Committed, History, Settle, Legal, Replay, Recoverable;
      r := Failed;
      for i := 0 to times
        invariant Continues() && Quiet()
        invariant old(disk).journal.None? ==> disk == old(disk).(spare := disk.spare)
        invariant !r.Failed? ==> disk.journal.None?
      {
        alive := true;
        r := RecoverInterrupted();
      }
    }

    /** Run a command, kill it anywhere, kill any number of recoveries anywhere, and
        let one complete: on disk is then the whole state that was committed before
        the command, or the whole state that the command was to select. */
    method KilledAndRecovered(command: Command, recoveries: nat) returns (r: Recovery, ghost base: Disk)
      requires Valid() && Recoverable(disk)
      modifies this
      ensures Continues()
      ensures !r.Failed? ==>
                && disk.journal.None?
                && (Seen(disk.selectors, disk.outside, disk.manifest) == Committed(old(disk))
                    || (Committed(base) == Committed(old(disk)) && Outcome(command, base, disk)))
    {
      hide Committed, History, Settle, Legal, Replay, Recoverable, Settled;
      base := Run(command);
      ghost var run := past;
      r := RecoverTimes(recoveries);
      if !r.Failed? {
        ghost var recovery := past[|run|..];
        assert past == run + recovery;
        RecoveryLandsOnCommitted(origin, run, recovery);
      }
    }

    twostate lemma SinceKeepsArtifacts()
      requires Continues() && old(Valid())
      ensures KeepsArtifacts(old(disk), disk)
    {
      var since := past[|old(past)|..];
      assert past == old(past) + since;
      ReplayConcat(origin, old(past), since);
      EveryRunKeepsArtifacts(old(disk), since);
    }

    /** Any commands, one process each, with any faults and kills. */
    method RunAll(commands: seq<Command>)
      requires Valid() && Recoverable(disk)
      modifies this
      ensures Prolongs(|commands|)
    {
      hide Committed, History, Legal, Replay, Recoverable, KeepsArtifacts;
      SinceKeepsArtifacts();
      for i := 0 to |commands|
        invariant Prolongs(i)
      {
        var _ := Run(commands[i]);
        SinceKeepsArtifacts();
      }
    }

    /** After any commands on a sound disk, with any faults and kills, a rollback that
        meets no fault (`calm`) succeeds whenever a release is committed. */
    method RollBackAfter(commands: seq<Command>) returns (reply: Reply, ghost base: Disk, ghost calm: bool)
      requires Valid() && Recoverable(origin) && CanRollBack(origin) && Truthful(Committed(origin))
      requires Recoverable(disk)
      modifies this
      ensures Continues()
      ensures calm && IsActivated(Committed(base)) ==> reply.Selected? && RolledBackFrom(base, disk)
    {
      hide History, Recoverable, KeepsArtifacts, Truthful, CanRollBack, Committed, IsActivated, RolledBackFrom, Replay, Legal;
      RunAll(commands);
      EveryRunIsRecoverable(origin, past);
      alive := true;
      ghost var before := faults;
      reply, base := RollBack();
      calm := faults == before;
    }

    /** A whole lifetime: the disk stays recoverable, every release, backup and
        committed state is kept, and what is committed on the disk is the last of the
        committed states, at most one more for each command. A last process that meets
        no fault (`calm`) puts that state on disk. */
    method Lifetime(commands: seq<Command>) returns (r: Recovery, ghost calm: bool)
      requires Valid() && Recoverable(disk)
      modifies this
      ensures Prolongs(|commands|)
      ensures Committed(disk) == History(origin, past)[|History(origin, past)| - 1]
      ensures Truthful(Committed(origin)) && Recoverable(origin) ==> Truthful(Committed(disk))
      ensures CanRollBack(origin) && Recoverable(origin) ==> CanRollBack(disk)
      ensures !r.Failed? ==> Committed(disk) == Seen(disk.selectors, disk.outside, disk.manifest)
      ensures calm ==> !r.Failed?
    {
      hide History, Recoverable, KeepsArtifacts, Truthful, CanRollBack;
      RunAll(commands);
      alive := true;
      ghost var before := faults;
      r := RecoverInterrupted();
      calm := faults == before;
      SinceKeepsArtifacts();
      EveryRunIsAtomic(origin, past);
      if Recoverable(origin) {
        EveryRunIsRecoverable(origin, past);
      }
    }
  }
}
