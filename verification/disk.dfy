/** The on-disk state of a local installation, the single filesystem steps the
    installer takes on it, and the protocol that makes several of those steps
    look like one.

    A run is an initial disk and a list of steps. Killing the process after any
    step is the same as stopping that list there, so a statement about every
    legal list is a statement about every kill point, recovery included. */
module ReleaseDisk {
  import opened Wrappers

  const MAX_BINARY_BYTES := 512 * 1024 * 1024
  const MAX_LINK_HOPS := 40
  const MAX_SELECTORS := 8
  const EXECUTABLE_MODE := 0x1ED  // 0o755
  const LOW_NINE_BITS := 0x200  // modes are saved modulo 0o1000

  type Bytes = seq<nat>

  /** A digest stands for what it digests: distinct contents have distinct digests. */
  datatype Hash = Sha(of: Bytes)

  datatype Path = Name(text: string) | ReleaseAt(version: string, sha: Hash)

  /** A selector path that is absent from the selector map is missing on disk. */
  datatype Node = Link(target: Path) | File(bytes: Bytes, mode: nat) | Directory

  type Selectors = map<Path, Node>

  datatype Binary = Binary(bytes: Bytes, mode: nat)

  datatype BackupId = BackupId(session: string, index: nat)

  datatype Previous =
    | WasMissing
    | WasLink(target: Path)
    | WasFile(backup: BackupId, sha: Hash, mode: nat)

  datatype Entry = Entry(path: Path, previous: Previous)

  datatype Selected = Active | PreviousActive

  datatype Manifest = Manifest(state: Selected, version: string, sha: Hash, entries: seq<Entry>) {
    function Release(): Path {
      ReleaseAt(version, sha)
    }
  }

  /** The bytes of a manifest file: a document, or something that does not parse. */
  datatype Text = Doc(manifest: Manifest) | Junk(raw: Bytes)

  datatype TextHash = TextSha(of: Text)

  datatype Operation = Install | Rollback

  datatype Before = NoManifest | Saved(sha: TextHash)

  datatype Journal = Journal(operation: Operation, active: Manifest, before: Before)

  datatype Disk = Disk(
    selectors: Selectors,
    manifest: Option<Text>,
    journal: Option<Journal>,
    spare: Option<Text>,  // the manifest backup that belongs to the journal
    backups: map<BackupId, Bytes>,
    releases: map<Path, Binary>,
    outside: map<Path, Path>)  // symbolic links the installer does not manage

  // ----- what a selector holds -----

  function Get(selectors: Selectors, path: Path): Option<Node> {
    if path in selectors then Some(selectors[path]) else None
  }

  function Put(selectors: Selectors, path: Path, node: Option<Node>): Selectors {
    if node.Some? then selectors[path := node.value] else selectors - {path}
  }

  /** What the manifest can remember of a node: special permission bits are not saved. */
  function Masked(node: Node): Node {
    if node.File? then node.(mode := node.mode % LOW_NINE_BITS) else node
  }

  function MaskedOption(node: Option<Node>): Option<Node> {
    if node.Some? then Some(Masked(node.value)) else None
  }

  ghost predicate SameMasked(a: Selectors, b: Selectors) {
    forall path :: MaskedOption(Get(a, path)) == MaskedOption(Get(b, path))
  }

  /** Where a link text leads, following managed and unmanaged links. */
  function Resolve(selectors: Selectors, outside: map<Path, Path>, path: Path, hops: nat): Option<Path>
    decreases hops
  {
    if path.ReleaseAt? then Some(path)
    else if hops == 0 then None
    else if path in selectors then
      match selectors[path]
      case Link(target) => Resolve(selectors, outside, target, hops - 1)
      case _ => Some(path)
    else if path in outside then Resolve(selectors, outside, outside[path], hops - 1)
    else Some(path)
  }

  predicate Selects(selectors: Selectors, outside: map<Path, Path>, path: Path, release: Path) {
    && path in selectors
    && selectors[path].Link?
    && Resolve(selectors, outside, selectors[path].target, MAX_LINK_HOPS) == Some(release)
  }

  // ----- documents -----

  predicate ValidPrevious(previous: Previous, index: nat) {
    match previous
    case WasMissing => true
    case WasLink(target) => target.Name? ==> 0 < |target.text| <= 4096
    case WasFile(backup, _, mode) => backup.index == index && mode < LOW_NINE_BITS
  }

  predicate DistinctPaths(entries: seq<Entry>) {
    forall i, j :: 0 <= i < j < |entries| ==> entries[i].path != entries[j].path
  }

  predicate ValidManifest(m: Manifest) {
    && 1 <= |m.entries| <= MAX_SELECTORS
    && DistinctPaths(m.entries)
    && forall i :: 0 <= i < |m.entries| ==>
         m.entries[i].path.Name? && ValidPrevious(m.entries[i].previous, i)
  }

  predicate Intact(d: Disk, m: Manifest) {
    && m.Release() in d.releases
    && var binary := d.releases[m.Release()];
       Sha(binary.bytes) == m.sha && binary.mode == EXECUTABLE_MODE && |binary.bytes| <= MAX_BINARY_BYTES
  }

  predicate Restorable(previous: Previous, backups: map<BackupId, Bytes>) {
    previous.WasFile? ==>
      && previous.backup in backups
      && Sha(backups[previous.backup]) == previous.sha
      && |backups[previous.backup]| <= MAX_BINARY_BYTES
  }

  function BeforeText(before: Before): Option<Text> {
    if before.NoManifest? then None else Some(before.sha.of)
  }

  /** The journal can be acted on: its manifest, its manifest backup and the
      release it names are all there and pass their checks. */
  predicate Loadable(d: Disk) {
    && d.journal.Some?
    && var j := d.journal.value;
       && ValidManifest(j.active)
       && j.active.state.Active?
       && Intact(d, j.active)
       && (j.before.Saved? ==>
             && d.spare == Some(j.before.sha.of)
             && j.before.sha.of.Doc?
             && ValidManifest(j.before.sha.of.manifest))
  }

  // ----- where a journal is heading -----

  datatype Goal = ToRelease(release: Path) | ToPrevious

  /** What a selector must hold when its entry has reached the goal. The bytes of
      a saved file are given by its digest; `Restorable` says the backup has them. */
  function Wanted(goal: Goal, e: Entry): Option<Node> {
    match goal
    case ToRelease(release) => Some(Link(release))
    case ToPrevious =>
      match e.previous
      case WasMissing => None
      case WasLink(target) => Some(Link(target))
      case WasFile(_, sha, mode) => Some(File(sha.of, mode))
  }

  predicate Settled(selectors: Selectors, entries: seq<Entry>, goal: Goal) {
    forall i :: 0 <= i < |entries| ==> Get(selectors, entries[i].path) == Wanted(goal, entries[i])
  }

  /** The selectors once every entry has reached the goal. */
  function Settle(selectors: Selectors, entries: seq<Entry>, goal: Goal): Selectors {
    if entries == [] then selectors
    else
      var last := entries[|entries| - 1];
      Put(Settle(selectors, entries[..|entries| - 1], goal), last.path, Wanted(goal, last))
  }

  function UndoGoal(j: Journal): Goal {
    if j.operation.Install? then ToPrevious else ToRelease(j.active.Release())
  }

  function DoGoal(j: Journal): Goal {
    if j.operation.Install? then ToRelease(j.active.Release()) else ToPrevious
  }

  /** The manifest that the journalled operation writes. */
  function After(j: Journal): Manifest {
    if j.operation.Install? then j.active else j.active.(state := PreviousActive)
  }

  // ----- single filesystem steps -----

  datatype Action =
    | PublishRelease(release: Path, bytes: Bytes)
    | SaveBackup(id: BackupId, content: Bytes)
    | DropSpare
    | WriteSpare(text: Text)
    | OpenJournal(journal: Journal)
    | SetSelector(path: Path, node: Option<Node>)
    | SetManifest(manifest: Option<Text>)
    | CloseJournal

  function Apply(a: Action, d: Disk): Disk {
    match a
    case PublishRelease(release, bytes) => d.(releases := d.releases[release := Binary(bytes, EXECUTABLE_MODE)])
    case SaveBackup(id, content) => d.(backups := d.backups[id := content])
    case DropSpare => d.(spare := None)
    case WriteSpare(text) => d.(spare := Some(text))
    case OpenJournal(journal) => d.(journal := Some(journal))
    case SetSelector(path, node) => d.(selectors := Put(d.selectors, path, node))
    case SetManifest(manifest) => d.(manifest := manifest)
    case CloseJournal => d.(journal := None)
  }

  /** What a first journal entry must know before any selector may change. */
  predicate Prepared(d: Disk, j: Journal) {
    && Loadable(d.(journal := Some(j)))
    && BeforeText(j.before) == d.manifest
    && (forall i :: 0 <= i < |j.active.entries| ==> Restorable(j.active.entries[i].previous, d.backups))
    && match j.operation
       case Install =>
         forall i :: 0 <= i < |j.active.entries| ==>
           var e := j.active.entries[i];
           && Get(d.selectors, e.path) != Some(Directory)
           && Wanted(ToPrevious, e) == MaskedOption(Get(d.selectors, e.path))
       case Rollback =>
         && d.manifest == Some(Doc(j.active))
         && forall i :: 0 <= i < |j.active.entries| ==>
              Selects(d.selectors, d.outside, j.active.entries[i].path, j.active.Release())
  }

  predicate Undone(d: Disk, j: Journal) {
    Settled(d.selectors, j.active.entries, UndoGoal(j)) && d.manifest == BeforeText(j.before)
  }

  predicate Done(d: Disk, j: Journal) {
    Settled(d.selectors, j.active.entries, DoGoal(j)) && d.manifest == Some(Doc(After(j)))
  }

  predicate AllowedAt(d: Disk, j: Journal, path: Path, node: Option<Node>, i: nat)
    requires i < |j.active.entries|
  {
    var e := j.active.entries[i];
    && e.path == path
    && ((node == Wanted(ToRelease(j.active.Release()), e))
        || (node == Wanted(ToPrevious, e) && Restorable(e.previous, d.backups)))
  }

  /** The write-ahead discipline: which steps may be taken on which disk. */
  predicate Enabled(a: Action, d: Disk) {
    match a
    case PublishRelease(release, bytes) =>
      release.ReleaseAt? && release !in d.releases && Sha(bytes) == release.sha && |bytes| <= MAX_BINARY_BYTES
    case SaveBackup(id, _) => id !in d.backups
    case DropSpare => d.journal.None?
    case WriteSpare(_) => d.journal.None?
    case OpenJournal(journal) => d.journal.None? && Prepared(d, journal)
    case SetSelector(path, node) =>
      && Loadable(d)
      && exists i: nat :: i < |d.journal.value.active.entries| && AllowedAt(d, d.journal.value, path, node, i)
    case SetManifest(manifest) =>
      && Loadable(d)
      && (manifest == BeforeText(d.journal.value.before) || manifest == Some(Doc(After(d.journal.value))))
    case CloseJournal => Loadable(d) && (Undone(d, d.journal.value) || Done(d, d.journal.value))
  }

  /** The one kind of step that changes what is selected. */
  predicate Commits(a: Action, d: Disk) {
    a.CloseJournal? && d.journal.Some? && Done(d, d.journal.value) && !Undone(d, d.journal.value)
  }

  // ----- runs -----

  function Replay(origin: Disk, past: seq<Action>): Disk {
    if past == [] then origin else Apply(past[|past| - 1], Replay(origin, past[..|past| - 1]))
  }

  predicate Legal(origin: Disk, past: seq<Action>) {
    past == [] ||
    (Legal(origin, past[..|past| - 1]) && Enabled(past[|past| - 1], Replay(origin, past[..|past| - 1])))
  }

  lemma LegalStep(origin: Disk, past: seq<Action>, a: Action)
    requires Legal(origin, past) && Enabled(a, Replay(origin, past))
    ensures Legal(origin, past + [a]) && Replay(origin, past + [a]) == Apply(a, Replay(origin, past))
  {
    assert (past + [a])[..|past|] == past;
  }

  // ----- the logical state -----

  /** A selector as the current manifest sees it: under an active manifest, a
      managed link that resolves to the release selects it, whatever its text. */
  datatype Shape = OnRelease(release: Path) | Raw(node: Node)

  datatype View = View(selectors: map<Path, Shape>, manifest: Option<Text>)

  predicate Manages(manifest: Option<Text>, path: Path) {
    && manifest.Some? && manifest.value.Doc?
    && manifest.value.manifest.state.Active?
    && exists e :: e in manifest.value.manifest.entries && e.path == path
  }

  function ShapeOf(selectors: Selectors, outside: map<Path, Path>, manifest: Option<Text>, path: Path): Shape
    requires path in selectors
  {
    if Manages(manifest, path) && Selects(selectors, outside, path, manifest.value.manifest.Release())
    then OnRelease(manifest.value.manifest.Release())
    else Raw(Masked(selectors[path]))
  }

  function Seen(selectors: Selectors, outside: map<Path, Path>, manifest: Option<Text>): View {
    View(map path | path in selectors :: ShapeOf(selectors, outside, manifest, path), manifest)
  }

  /** What is selected: the disk itself, or, while a journal is open, what
      undoing the journal would restore. */
  function Committed(d: Disk): View {
    match d.journal
    case None => Seen(d.selectors, d.outside, d.manifest)
    case Some(j) =>
      Seen(Settle(d.selectors, j.active.entries, UndoGoal(j)), d.outside, BeforeText(j.before))
  }

  /** The state every legal step keeps. */
  predicate Recoverable(d: Disk) {
    d.journal.None? ||
    (&& Loadable(d)
     && (forall i :: 0 <= i < |d.journal.value.active.entries| ==>
           && Restorable(d.journal.value.active.entries[i].previous, d.backups)
           && Get(d.selectors, d.journal.value.active.entries[i].path) != Some(Directory))
     && (d.journal.value.operation.Rollback? ==>
           d.journal.value.before == Saved(TextSha(Doc(d.journal.value.active)))))
  }

  predicate IsActivated(v: View) {
    v.manifest.Some? && v.manifest.value.Doc? && v.manifest.value.manifest.state.Active?
  }

  /** A committed manifest that is active has its release and all its backups. */
  predicate CanRollBack(d: Disk) {
    IsActivated(Committed(d)) ==>
      var m := Committed(d).manifest.value.manifest;
      && ValidManifest(m) && Intact(d, m)
      && forall i :: 0 <= i < |m.entries| ==> Restorable(m.entries[i].previous, d.backups)
  }

  /** The manifest tells the truth about the selectors. */
  predicate Truthful(v: View) {
    v.manifest.Some? && v.manifest.value.Doc? ==>
      var m := v.manifest.value.manifest;
      forall e :: e in m.entries ==>
        match m.state
        case Active => e.path in v.selectors && v.selectors[e.path] == OnRelease(m.Release())
        case PreviousActive =>
          (if e.path in v.selectors then Some(v.selectors[e.path]) else None)
          == (match Wanted(ToPrevious, e) case None => None case Some(node) => Some(Raw(node)))
  }

  // ----- lemmas about settling -----

  lemma {:induction false} SettleAt(selectors: Selectors, entries: seq<Entry>, goal: Goal)
    requires DistinctPaths(entries)
    ensures Settled(Settle(selectors, entries, goal), entries, goal)
    ensures forall path :: (forall i :: 0 <= i < |entries| ==> entries[i].path != path) ==>
              Get(Settle(selectors, entries, goal), path) == Get(selectors, path)
  {
    if entries != [] {
      var front := entries[..|entries| - 1];
      SettleAt(selectors, front, goal);
      var last := entries[|entries| - 1];
      assert forall i :: 0 <= i < |front| ==> entries[i] == front[i] && front[i].path != last.path;
    }
  }

  lemma SameSelectors(a: Selectors, b: Selectors)
    requires forall path :: Get(a, path) == Get(b, path)
    ensures a == b
  {
    forall path ensures path in a <==> path in b {
      assert Get(a, path) == Get(b, path);
    }
    forall path | path in a ensures a[path] == b[path] {
      assert Get(a, path) == Get(b, path);
    }
  }

  /** Two selector maps that differ only at managed paths settle alike. */
  lemma SettleForgets(a: Selectors, b: Selectors, entries: seq<Entry>, goal: Goal)
    requires DistinctPaths(entries)
    requires forall path :: (forall i :: 0 <= i < |entries| ==> entries[i].path != path) ==> Get(a, path) == Get(b, path)
    ensures Settle(a, entries, goal) == Settle(b, entries, goal)
  {
    SettleAt(a, entries, goal);
    SettleAt(b, entries, goal);
    var x, y := Settle(a, entries, goal), Settle(b, entries, goal);
    forall path ensures Get(x, path) == Get(y, path) {
      if i :| 0 <= i < |entries| && entries[i].path == path {
        assert Get(x, entries[i].path) == Wanted(goal, entries[i]) == Get(y, entries[i].path);
      }
    }
    SameSelectors(x, y);
  }

  /** Two selector maps agree wherever no entry manages the selector. */
  ghost predicate SameElsewhere(a: Selectors, b: Selectors, entries: seq<Entry>) {
    Settle(a, entries, ToPrevious) == Settle(b, entries, ToPrevious)
  }

  lemma SettledIsSettle(selectors: Selectors, entries: seq<Entry>, goal: Goal)
    requires DistinctPaths(entries)
    requires Settled(selectors, entries, goal)
    ensures Settle(selectors, entries, goal) == selectors
  {
    SettleAt(selectors, entries, goal);
    var x := Settle(selectors, entries, goal);
    forall path ensures Get(x, path) == Get(selectors, path) {
      if i :| 0 <= i < |entries| && entries[i].path == path {
        assert Get(x, entries[i].path) == Wanted(goal, entries[i]);
      }
    }
    SameSelectors(x, selectors);
  }

  // ----- lemmas about what is seen -----

  lemma {:induction false} ResolveMasked(a: Selectors, b: Selectors, outside: map<Path, Path>, path: Path, hops: nat)
    requires SameMasked(a, b)
    ensures Resolve(a, outside, path, hops) == Resolve(b, outside, path, hops)
    decreases hops
  {
    if path.Name? && hops > 0 {
      assert MaskedOption(Get(a, path)) == MaskedOption(Get(b, path));
      if path in a {
        if a[path].Link? {
          ResolveMasked(a, b, outside, a[path].target, hops - 1);
        }
      } else if path in outside {
        ResolveMasked(a, b, outside, outside[path], hops - 1);
      }
    }
  }

  lemma SeenMasked(a: Selectors, b: Selectors, outside: map<Path, Path>, manifest: Option<Text>)
    requires SameMasked(a, b)
    ensures Seen(a, outside, manifest) == Seen(b, outside, manifest)
  {
    forall path ensures path in a <==> path in b {
      assert MaskedOption(Get(a, path)) == MaskedOption(Get(b, path));
    }
    forall path | path in a
      ensures ShapeOf(a, outside, manifest, path) == ShapeOf(b, outside, manifest, path)
    {
      assert MaskedOption(Get(a, path)) == MaskedOption(Get(b, path));
      if a[path].Link? {
        ResolveMasked(a, b, outside, a[path].target, MAX_LINK_HOPS);
      }
    }
  }

  // ----- the protocol keeps its promises, step by step -----

  /** Opening a journal changes nothing that is seen: what undoing it would
      restore is what is there, up to special permission bits (install) or up to
      the text of links that already resolve to the release (rollback). */
  lemma OpeningIsInvisible(d: Disk, j: Journal)
    requires d.journal.None? && Prepared(d, j)
    ensures Committed(d.(journal := Some(j))) == Committed(d)
  {
    var entries := j.active.entries;
    var undone := Settle(d.selectors, entries, UndoGoal(j));
    SettleAt(d.selectors, entries, UndoGoal(j));
    if j.operation.Install? {
      forall path ensures MaskedOption(Get(undone, path)) == MaskedOption(Get(d.selectors, path)) {
        if i :| 0 <= i < |entries| && entries[i].path == path {
          assert Get(undone, entries[i].path) == Wanted(ToPrevious, entries[i]);
        }
      }
      SeenMasked(undone, d.selectors, d.outside, d.manifest);
    } else {
      forall path
        ensures path in undone <==> path in d.selectors
        ensures path in undone ==>
                  ShapeOf(undone, d.outside, d.manifest, path) == ShapeOf(d.selectors, d.outside, d.manifest, path)
      {
        if i :| 0 <= i < |entries| && entries[i].path == path {
          assert entries[i] in entries;
          assert Get(undone, entries[i].path) == Some(Link(j.active.Release()));
        } else {
          assert Get(undone, path) == Get(d.selectors, path);
          assert forall e :: e in entries ==> e.path != path;
        }
      }
    }
  }

  /** No special permission bits are set on a file behind this selector. */
  predicate Plain(selectors: Selectors, path: Path) {
    MaskedOption(Get(selectors, path)) == Get(selectors, path)
  }

  /** Will undoing the journal give this selector back exactly? */
  predicate Exact(selectors: Selectors, j: Journal, path: Path) {
    match j.operation
    case Install => Plain(selectors, path)
    case Rollback => Get(selectors, path) == Some(Link(j.active.Release()))
  }

  /** Undoing a journal restores every selector exactly if and only if, when it was
      opened, no managed file had special permission bits (install), or every managed
      selector was a direct link to the release (rollback). */
  lemma UndoingIsExact(d: Disk, j: Journal)
    requires Prepared(d, j)
    ensures Settle(d.selectors, j.active.entries, UndoGoal(j)) == d.selectors
            <==> forall i :: 0 <= i < |j.active.entries| ==> Exact(d.selectors, j, j.active.entries[i].path)
  {
    var entries, goal := j.active.entries, UndoGoal(j);
    SettleAt(d.selectors, entries, goal);
    if forall i :: 0 <= i < |entries| ==> Exact(d.selectors, j, entries[i].path) {
      forall i | 0 <= i < |entries| ensures Get(d.selectors, entries[i].path) == Wanted(goal, entries[i]) {
        assert Exact(d.selectors, j, entries[i].path);
      }
      SettledIsSettle(d.selectors, entries, goal);
    }
  }

  /** A journalled operation on one selector, and the disk it is opened on. */
  function Example(operation: Operation, node: Node, previous: Previous): (r: (Disk, Journal)) {
    var m := Manifest(Active, "1", Sha([]), [Entry(Name("mtm"), previous)]);
    var before := if operation.Install? then None else Some(Doc(m));
    (Disk(map[Name("mtm") := node], before, None, before, map[BackupId("s", 0) := [7]],
          map[m.Release() := Binary([], EXECUTABLE_MODE)], map[Name("alias") := m.Release()]),
     Journal(operation, m, if operation.Install? then NoManifest else Saved(TextSha(Doc(m)))))
  }

  /** An undone install can lose a setuid bit: mode 0o4755 comes back as 0o755. */
  lemma UndoneInstallCanLoseBits()
    ensures var (d, j) := Example(Install, File([7], 0x9ED), WasFile(BackupId("s", 0), Sha([7]), 0x1ED));
            && d.journal.None? && Prepared(d, j)
            && Settle(d.selectors, j.active.entries, UndoGoal(j)) == map[Name("mtm") := File([7], 0x1ED)] != d.selectors
  {
    var (d, j) := Example(Install, File([7], 0x9ED), WasFile(BackupId("s", 0), Sha([7]), 0x1ED));
    assert Settle(d.selectors, [], UndoGoal(j)) == d.selectors;
    assert Get(d.selectors, Name("mtm")) == Some(File([7], 0x9ED));
  }

  /** An undone rollback can lose a detour: the link through `alias` comes back direct. */
  lemma UndoneRollbackCanLoseLinkText()
    ensures var (d, j) := Example(Rollback, Link(Name("alias")), WasMissing);
            && d.journal.None? && Prepared(d, j)
            && Settle(d.selectors, j.active.entries, UndoGoal(j)) == map[Name("mtm") := Link(j.active.Release())]
            && d.selectors == map[Name("mtm") := Link(Name("alias"))]
  {
    var (d, j) := Example(Rollback, Link(Name("alias")), WasMissing);
    assert Settle(d.selectors, [], UndoGoal(j)) == d.selectors;
    assert Resolve(d.selectors, d.outside, j.active.Release(), MAX_LINK_HOPS - 1) == Some(j.active.Release());
  }

  /** Closing a journal whose undoing is complete changes nothing that is seen. */
  lemma ClosingUndoneIsInvisible(d: Disk, j: Journal)
    requires d.journal == Some(j) && Loadable(d) && Undone(d, j)
    ensures Committed(d.(journal := None)) == Committed(d)
  {
    SettledIsSettle(d.selectors, j.active.entries, UndoGoal(j));
  }

  /** Moving a managed selector under an open journal changes nothing that is seen. */
  lemma SettingIsInvisible(d: Disk, path: Path, node: Option<Node>)
    requires Enabled(SetSelector(path, node), d)
    ensures Committed(Apply(SetSelector(path, node), d)) == Committed(d)
  {
    var j := d.journal.value;
    SettleForgets(d.selectors, Put(d.selectors, path, node), j.active.entries, UndoGoal(j));
  }

  /** Every step but a commit leaves the committed state as it was. */
  lemma StepKeepsCommitted(a: Action, d: Disk)
    requires Enabled(a, d) && !Commits(a, d)
    ensures Committed(Apply(a, d)) == Committed(d)
  {
    match a
    case OpenJournal(j) => OpeningIsInvisible(d, j);
    case SetSelector(path, node) => SettingIsInvisible(d, path, node);
    case CloseJournal => ClosingUndoneIsInvisible(d, d.journal.value);
    case _ =>
  }

  /** Every step keeps the disk recoverable. */
  lemma StepKeepsRecoverable(a: Action, d: Disk)
    requires Recoverable(d) && Enabled(a, d)
    ensures Recoverable(Apply(a, d))
  {
    if a.SetSelector? {
      var entries := d.journal.value.active.entries;
      forall k | 0 <= k < |entries|
        ensures Get(Put(d.selectors, a.path, a.node), entries[k].path) != Some(Directory)
      {
        assert Get(d.selectors, entries[k].path) != Some(Directory);
      }
    }
  }

  /** A commit selects exactly what the journalled operation was to select. */
  lemma CommitSelects(d: Disk)
    requires Loadable(d) && Done(d, d.journal.value)
    ensures Committed(Apply(CloseJournal, d)).manifest == Some(Doc(After(d.journal.value)))
    ensures Truthful(Committed(Apply(CloseJournal, d)))
  {
    hide Resolve, Settle, Intact;
    var j := d.journal.value;
    var v := Seen(d.selectors, d.outside, d.manifest);
    forall e | e in After(j).entries
      ensures Get(d.selectors, e.path) == Wanted(DoGoal(j), e)
      ensures e.path in v.selectors <==> e.path in d.selectors
    {
      var i :| 0 <= i < |j.active.entries| && j.active.entries[i] == e;
    }
    if j.operation.Install? {
      DirectLinks(d, j);
      assert forall e :: e in j.active.entries ==> Manages(d.manifest, e.path);
    } else {
      forall e | e in j.active.entries ensures e.previous.WasFile? ==> e.previous.mode % LOW_NINE_BITS == e.previous.mode {
        var i :| 0 <= i < |j.active.entries| && j.active.entries[i] == e;
        assert ValidPrevious(j.active.entries[i].previous, i);
      }
    }
  }

  lemma DirectLinks(d: Disk, j: Journal)
    ensures Resolve(d.selectors, d.outside, j.active.Release(), MAX_LINK_HOPS) == Some(j.active.Release())
  {
  }

  /** A commit touches no selector that the operation does not manage. */
  lemma CommitSparesOthers(d: Disk, path: Path)
    requires Loadable(d) && Done(d, d.journal.value)
    requires forall e :: e in d.journal.value.active.entries ==> e.path != path
    ensures path in Committed(Apply(CloseJournal, d)).selectors <==> path in Committed(d).selectors
    ensures path in d.selectors ==>
              Committed(Apply(CloseJournal, d)).selectors[path] == Raw(Masked(d.selectors[path]))
  {
    hide Settle, Selects, ShapeOf, Settled, Wanted;
    var j := d.journal.value;
    assert forall i :: 0 <= i < |j.active.entries| ==> j.active.entries[i] in j.active.entries;
    SettleAt(d.selectors, j.active.entries, UndoGoal(j));
    assert Get(Settle(d.selectors, j.active.entries, UndoGoal(j)), path) == Get(d.selectors, path);
    if path in d.selectors {
      UnmanagedShape(d, path);
    }
  }

  lemma UnmanagedShape(d: Disk, path: Path)
    requires path in d.selectors && !Manages(d.manifest, path)
    ensures ShapeOf(d.selectors, d.outside, d.manifest, path) == Raw(Masked(d.selectors[path]))
  {
  }

  /** The manifest never starts to lie about the committed selectors. */
  lemma StepKeepsTruth(a: Action, d: Disk)
    requires Enabled(a, d) && Truthful(Committed(d))
    ensures Truthful(Committed(Apply(a, d)))
  {
    if Commits(a, d) {
      CommitSelects(d);
    } else {
      StepKeepsCommitted(a, d);
    }
  }

  /** Every step keeps what a rollback needs: the release and the backups of the
      committed manifest. */
  lemma StepKeepsRollback(a: Action, d: Disk)
    requires Recoverable(d) && CanRollBack(d) && Enabled(a, d)
    ensures CanRollBack(Apply(a, d))
  {
    hide Seen, Settle, Committed;
    CommittedManifest(d);
    CommittedManifest(Apply(a, d));
  }

  lemma CommittedManifest(d: Disk)
    ensures Committed(d).manifest == if d.journal.None? then d.manifest else BeforeText(d.journal.value.before)
  {
  }

  // ----- the protocol keeps its promises, run by run -----

  /** The committed states of a run, oldest first: one more for each commit. */
  function History(origin: Disk, past: seq<Action>): (views: seq<View>)
    ensures |views| > 0
  {
    if past == [] then [Committed(origin)]
    else
      var last := past[|past| - 1];
      var front := past[..|past| - 1];
      var earlier := History(origin, front);
      if Commits(last, Replay(origin, front)) then earlier + [Committed(Replay(origin, past))] else earlier
  }

  /** One more step: a new committed state exactly when it is a commit. */
  lemma HistoryStep(origin: Disk, past: seq<Action>, a: Action)
    ensures History(origin, past + [a])
            == if Commits(a, Replay(origin, past))
               then History(origin, past) + [Committed(Apply(a, Replay(origin, past)))]
               else History(origin, past)
  {
    hide Commits, Committed, Apply;
    assert (past + [a])[..|past|] == past;
  }

  /** What one more legal step keeps. */
  lemma StepKeeps(origin: Disk, past: seq<Action>, a: Action)
    requires Legal(origin, past) && Enabled(a, Replay(origin, past))
    ensures var d := Replay(origin, past);
            && Legal(origin, past + [a]) && Replay(origin, past + [a]) == Apply(a, d)
            && (Recoverable(d) ==> Recoverable(Apply(a, d)))
            && (if Commits(a, d) then History(origin, past + [a]) == History(origin, past) + [Committed(Apply(a, d))]
                else Committed(Apply(a, d)) == Committed(d) && History(origin, past + [a]) == History(origin, past))
  {
    hide Enabled, Apply, Commits, Committed, Recoverable, Legal, Replay, History;
    var d := Replay(origin, past);
    LegalStep(origin, past, a);
    HistoryStep(origin, past, a);
    if Recoverable(d) {
      StepKeepsRecoverable(a, d);
    }
    if !Commits(a, d) {
      StepKeepsCommitted(a, d);
    }
  }

  /** However a run is cut short, what its journal can restore is the latest
      committed state: all of the state before an operation or all of the state
      after it. */
  lemma {:induction false} EveryRunIsAtomic(origin: Disk, past: seq<Action>)
    requires Legal(origin, past)
    ensures Committed(Replay(origin, past)) == History(origin, past)[|History(origin, past)| - 1]
  {
    if past != [] {
      var front := past[..|past| - 1];
      EveryRunIsAtomic(origin, front);
      if !Commits(past[|past| - 1], Replay(origin, front)) {
        StepKeepsCommitted(past[|past| - 1], Replay(origin, front));
      }
    }
  }

  /** Every run from a recoverable disk stays recoverable, and its committed
      manifest stays truthful and fit for a rollback. */
  lemma {:induction false} EveryRunIsRecoverable(origin: Disk, past: seq<Action>)
    requires Legal(origin, past) && Recoverable(origin)
    ensures Recoverable(Replay(origin, past))
    ensures Truthful(Committed(origin)) ==> Truthful(Committed(Replay(origin, past)))
    ensures CanRollBack(origin) ==> CanRollBack(Replay(origin, past))
  {
    hide Recoverable, Truthful, CanRollBack, Committed, Enabled, Apply;
    if past != [] {
      var front := past[..|past| - 1];
      EveryRunIsRecoverable(origin, front);
      StepKeepsRecoverable(past[|past| - 1], Replay(origin, front));
      if CanRollBack(origin) {
        StepKeepsRollback(past[|past| - 1], Replay(origin, front));
      }
      if Truthful(Committed(origin)) {
        StepKeepsTruth(past[|past| - 1], Replay(origin, front));
      }
    }
  }

  lemma {:induction false} ReplayConcat(origin: Disk, first: seq<Action>, second: seq<Action>)
    ensures Replay(origin, first + second) == Replay(Replay(origin, first), second)
    ensures Legal(origin, first + second) <==> Legal(origin, first) && Legal(Replay(origin, first), second)
  {
    if second == [] {
      assert first + second == first;
    } else {
      var all := first + second;
      assert all[..|all| - 1] == first + second[..|second| - 1];
      ReplayConcat(origin, first, second[..|second| - 1]);
    }
  }

  /** Kill a run anywhere, kill any number of recoveries anywhere, and let one
      complete: the selectors and the manifest that are then on disk are the last
      state the killed run had committed. */
  lemma RecoveryLandsOnCommitted(origin: Disk, run: seq<Action>, recovery: seq<Action>)
    requires Legal(origin, run + recovery)
    requires History(origin, run + recovery) == History(origin, run)
    requires Replay(origin, run + recovery).journal.None?
    ensures var d := Replay(origin, run + recovery);
            Seen(d.selectors, d.outside, d.manifest) == History(origin, run)[|History(origin, run)| - 1]
            && Seen(d.selectors, d.outside, d.manifest) == Committed(Replay(origin, run))
  {
    ReplayConcat(origin, run, recovery);
    EveryRunIsAtomic(origin, run);
    EveryRunIsAtomic(origin, run + recovery);
  }

  /** `b` still has every release and backup of `a`, unchanged. */
  predicate KeepsArtifacts(a: Disk, b: Disk) {
    && (forall release :: release in a.releases ==> release in b.releases && b.releases[release] == a.releases[release])
    && (forall id :: id in a.backups ==> id in b.backups && b.backups[id] == a.backups[id])
  }

  lemma StepKeepsArtifacts(a: Action, d: Disk)
    requires Enabled(a, d)
    ensures KeepsArtifacts(d, Apply(a, d))
  {
  }

  /** Published releases and saved selector backups are immutable in every run. */
  lemma {:induction false} EveryRunKeepsArtifacts(origin: Disk, past: seq<Action>)
    requires Legal(origin, past)
    ensures KeepsArtifacts(origin, Replay(origin, past))
  {
    hide Enabled, Apply;
    if past != [] {
      var front := past[..|past| - 1];
      EveryRunKeepsArtifacts(origin, front);
      StepKeepsArtifacts(past[|past| - 1], Replay(origin, front));
    }
  }

  // ----- a healthy installation -----

  predicate RestoredNode(previous: Previous, node: Option<Node>) {
    match previous
    case WasMissing => node.None?
    case WasLink(target) => node == Some(Link(target))
    case WasFile(_, sha, mode) =>
      && node.Some? && node.value.File?
      && node.value.mode % LOW_NINE_BITS == mode
      && |node.value.bytes| <= MAX_BINARY_BYTES
      && Sha(node.value.bytes) == sha
  }

  predicate SelectorCorrect(d: Disk, m: Manifest, e: Entry) {
    match m.state
    case Active => Selects(d.selectors, d.outside, e.path, m.Release())
    case PreviousActive => RestoredNode(e.previous, Get(d.selectors, e.path))
  }

  predicate Healthy(d: Disk) {
    && d.manifest.Some? && d.manifest.value.Doc?
    && var m := d.manifest.value.manifest;
       ValidManifest(m) && Intact(d, m)
       && forall i :: 0 <= i < |m.entries| ==> SelectorCorrect(d, m, m.entries[i])
  }

  /** An operation that has run to its end leaves a healthy installation. */
  lemma DoneIsHealthy(d: Disk)
    requires Recoverable(d) && d.journal.Some? && Done(d, d.journal.value)
    ensures Healthy(d)
  {
    var j := d.journal.value;
    forall i | 0 <= i < |j.active.entries| ensures SelectorCorrect(d, After(j), j.active.entries[i]) {
      assert Restorable(j.active.entries[i].previous, d.backups);
      assert ValidPrevious(j.active.entries[i].previous, i);
      assert Get(d.selectors, j.active.entries[i].path) == Wanted(DoGoal(j), j.active.entries[i]);
    }
  }

  /** One selector, as an undone journal wants it. */
  predicate Back(d: Disk, goal: Goal, e: Entry) {
    match goal
    case ToRelease(release) => Selects(d.selectors, d.outside, e.path, release)
    case ToPrevious => RestoredNode(e.previous, Get(d.selectors, e.path))
  }

  /** Settled selectors pass the check that compensation makes. */
  lemma SettledIsBack(d: Disk, goal: Goal)
    requires Recoverable(d) && d.journal.Some? && Settled(d.selectors, d.journal.value.active.entries, goal)
    requires goal.ToRelease? ==> goal.release.ReleaseAt?
    ensures forall i :: 0 <= i < |d.journal.value.active.entries| ==> Back(d, goal, d.journal.value.active.entries[i])
  {
    var entries := d.journal.value.active.entries;
    forall i | 0 <= i < |entries| ensures Back(d, goal, entries[i]) {
      assert Get(d.selectors, entries[i].path) == Wanted(goal, entries[i]);
      assert Restorable(entries[i].previous, d.backups) && ValidPrevious(entries[i].previous, i);
    }
  }
}
