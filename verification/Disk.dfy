// What the vault's mutations share: error kinds, sync results, file objects and the values
// their contracts speak about.

module Disk {
  import opened Wrappers
  import opened Tree
  import opened Paths

  type Bytes = seq<nat>

  /** What identifies the content of a file: its BLAKE3 hash as hex text, and its length. */
  datatype FileRevision = FileRevision(hex: string, byteLen: nat) {
    predicate Valid() {
      |hex| == 64 && forall i :: 0 <= i < 64 ==> '0' <= hex[i] <= '9' || 'a' <= hex[i] <= 'f'
    }
  }

  /** A revision is well formed exactly when its hash is written with 64 lower-case hex digits. */
  lemma RevisionForm(r: FileRevision)
    ensures r.Valid() <==> |r.hex| == 64 && forall c :: c in r.hex ==> c in "0123456789abcdef"
  {
    forall c ensures c in "0123456789abcdef" <==> '0' <= c <= '9' || 'a' <= c <= 'f' {
      HexDigit(c);
    }
    assert forall i :: 0 <= i < |r.hex| ==> r.hex[i] in r.hex;
  }

  lemma HexDigit(c: char)
    ensures c in "0123456789abcdef" <==> '0' <= c <= '9' || 'a' <= c <= 'f'
  {
    var digits := "0123456789abcdef";
    if '0' <= c <= '9' {
      assert digits[c as int - '0' as int] == c;
    } else if 'a' <= c <= 'f' {
      assert digits[10 + (c as int - 'a' as int)] == c;
    }
  }

  const MAX_TRASH_PAYLOAD_BYTES := 64 * 1024 * 1024
  const MAX_NOTE_BYTES := 16 * 1024 * 1024

  datatype FileObject = FileObject(bytes: Bytes, links: nat)

  datatype Error =
    | Io
    | NotFound
    | InvalidRelativePath
    | SymlinkRejected
    | PortablePathCollision
    | AlreadyExists
    | InvalidMove
    | InvalidRevision
    | StaleRevision
    | RevisionTargetNotFile
    | ResourceLimitExceeded
    | AutomaticObsidianWriteDenied
    | TrashWriteDenied
    | InvalidTrashManifest
    | NonCanonicalTrashManifest
    | TrashManifestDigestMismatch
    | TrashManifestCollision
    | TrashManifestOutcomeUnknown
    | InvalidTrashTopology
    | ContentDigestMismatch
    | AtomicMoveOutcomeUnknown
    | VerifiedMoveOutcomeUnknown
    | MoveContentPrepublicationSyncFailed
    | StagePayloadPrepublicationSyncFailed
    | CaseRenamePrepublicationSyncFailed
    | CaseRenameOutcomeUnknown
    | ReplaceContentOutcomeUnknown
    | CommitOutcomeUnknown
    | PublishedCleanupPending

  /** How a call ends. `Stopped` is a call that was cut off and returned nothing. */
  datatype Outcome<+T> = Done(value: T) | Failed(error: Error) | Stopped

  datatype MoveDurability = FullySynced | DirectorySyncUnsupported {
    function Combine(other: MoveDurability): MoveDurability {
      if this.DirectorySyncUnsupported? || other.DirectorySyncUnsupported? then DirectorySyncUnsupported
      else FullySynced
    }
  }

  datatype SyncResult = Synced(durability: MoveDurability) | SyncFailed

  /** The results of flushing the destination parent and, when it is another directory, the
      source parent. */
  datatype MoveSyncReport = MoveSyncReport(destination: SyncResult, source: Option<SyncResult>) {
    predicate HasFailure() {
      destination.SyncFailed? || (source.Some? && source.value.SyncFailed?)
    }

    function IntoResult(): (r: Result<MoveDurability, Error>)
      ensures r.Ok? <==> !HasFailure()
      ensures r.Ok? ==> (r.value == FullySynced <==>
                         destination == Synced(FullySynced) &&
                         (source.Some? ==> source.value == Synced(FullySynced)))
    {
      match (destination, source)
      case (Synced(d), None) => Ok(d)
      case (Synced(d), Some(Synced(s))) => Ok(d.Combine(s))
      case (_, _) => Err(AtomicMoveOutcomeUnknown)
    }
  }

  datatype State = State(root: Node, objects: map<nat, FileObject>)

  /** The tree is a directory and every file in it has an object. */
  ghost predicate WellFormed(s: State) {
    && s.root.Dir?
    && forall p :: At(s.root, p).IsFile? ==> At(s.root, p).obj in s.objects
  }

  /** The file at `p` is regular, has one link and is at revision `rev`. */
  ghost predicate Exact(hash: Bytes -> string, s: State, p: Path, rev: FileRevision) {
    && At(s.root, p).IsFile? && At(s.root, p).obj in s.objects
    && var f := s.objects[At(s.root, p).obj];
    && f.links == 1 && FileRevision(hash(f.bytes), |f.bytes|) == rev
  }

  // ----- The revision-bound content move

  datatype Mode = Fresh | Resume

  datatype MoveContentOutcome = Moved(durability: MoveDurability) | AlreadyMoved(durability: MoveDurability)

  datatype MoveSide = Destination | Source

  /** What a move did to the disk, in order. */
  datatype MoveEvent = SyncDir(side: MoveSide, result: SyncResult) | Renamed

  /** One round of parent syncs, destination first, a shared parent once. */
  function RoundEvents(report: MoveSyncReport): seq<MoveEvent> {
    [SyncDir(Destination, report.destination)] +
    (if report.source.Some? then [SyncDir(Source, report.source.value)] else [])
  }

  function MaybeRound(report: Option<MoveSyncReport>): seq<MoveEvent> {
    if report.Some? then RoundEvents(report.value) else []
  }

  /** What a call really did to the disk: it flushed a directory or a file, or changed which
      names there are. */
  datatype DiskStep =
    | Flush(path: Path, result: SyncResult)
    | Make(path: Path)
    | Move(source: Path, destination: Path)
    | Link(existing: Path, name: Path)
    | Unlink(path: Path)

  /** All steps so far, the latest one last. */
  datatype Trace = Begin | Then(before: Trace, step: DiskStep)

  /** One more round of parent syncs of a move from `s` to `d`. */
  function RoundSteps(t: Trace, report: MoveSyncReport, s: Path, d: Path): Trace
    requires s != [] && d != []
  {
    var flushed := Then(t, Flush(Parent(d), report.destination));
    if report.source.Some? then Then(flushed, Flush(Parent(s), report.source.value)) else flushed
  }

  function MaybeSteps(t: Trace, report: Option<MoveSyncReport>, s: Path, d: Path): Trace
    requires s != [] && d != []
  {
    if report.Some? then RoundSteps(t, report.value, s, d) else t
  }

  /** The sync rounds of one move call, whatever it returned: the classification round, the
      rename, the round after it, and a second one when that round failed. */
  datatype MoveLog = MoveLog(classified: Option<MoveSyncReport>, renamed: bool, first: Option<MoveSyncReport>, second: Option<MoveSyncReport>) {

    /** The order of the steps: a classification round before the rename, no later round
        without the rename, and a second one only after a failed first one. */
    ghost predicate InOrder(shared: bool) {
      && (classified.Some? ==> classified.value.source.None? == shared)
      && (first.Some? ==> renamed && first.value.source.None? == shared)
      && (second.Some? ==> first.Some? && first.value.HasFailure() && second.value.source.None? == shared)
      && (renamed ==> classified.Some?)
    }

    /** Nothing was renamed after a failed classification round. */
    ghost predicate Cautious() {
      renamed ==> classified.Some? && !classified.value.HasFailure()
    }

    /** The round after the rename whose results count. */
    function Last(): Option<MoveSyncReport> {
      if second.Some? then second else first
    }

    /** The last round of all. */
    function Final(): Option<MoveSyncReport> {
      if Last().Some? then Last() else classified
    }

    /** The call may report this durability. */
    ghost predicate Reports(d: MoveDurability) {
      && renamed && classified.Some? && !classified.value.HasFailure() && Last().Some? && !Last().value.HasFailure()
      && d == classified.value.IntoResult().value.Combine(Last().value.IntoResult().value)
    }

    /** The steps after the rename. */
    function After(): seq<MoveEvent> {
      MaybeRound(first) + MaybeRound(second)
    }

    /** The steps of the call, after those of `t`. */
    function Steps(t: Trace, s: Path, d: Path): Trace
      requires s != [] && d != []
    {
      Later(MaybeSteps(t, classified, s, d), s, d)
    }

    /** The steps from the rename on. */
    function Later(t: Trace, s: Path, d: Path): Trace
      requires s != [] && d != []
    {
      MaybeSteps(MaybeSteps(if renamed then Then(t, Move(s, d)) else t, first, s, d), second, s, d)
    }

    function Events(): seq<MoveEvent> {
      MaybeRound(classified) + (if renamed then [Renamed] else []) + After()
    }
  }

  /** The request itself is acceptable, whatever the tree holds. */
  ghost predicate MoveRequestOk(n: Naming, s: Path, d: Path, expected: FileRevision) {
    && s != [] && d != [] && Classify(n, s) == Content && Classify(n, d) == Content
    && CollisionKey(n, s) != CollisionKey(n, d)
    && expected.Valid() && expected.byteLen <= MAX_TRASH_PAYLOAD_BYTES
  }

  /** Both parents can be opened and no name on either path collides. */
  ghost predicate EndsClear(n: Naming, root: Node, s: Path, d: Path)
    requires s != [] && d != []
  {
    && At(root, Parent(s)) == IsDir && At(root, Parent(d)) == IsDir
    && Clear(n, root, s) && Clear(n, root, d)
  }

  /** One content move took effect: the exact file at `s` is now at `d`, and nothing at `d`
      was replaced. */
  ghost predicate ContentMoved(n: Naming, hash: Bytes -> string, pre: State, post: State, s: Path, d: Path, expected: FileRevision) {
    && MoveRequestOk(n, s, d, expected) && EndsClear(n, pre.root, s, d)
    && CanRename(pre.root, s, d) && Exact(hash, pre, s, expected)
    && post == pre.(root := Rename(pre.root, s, d))
  }

  /** A call that changed the tree reports success or that its outcome is unknown; every
      other error means that nothing was renamed. */
  ghost predicate Honest<T>(pre: Node, post: Node, r: Outcome<T>) {
    pre == post || r.Done? || r.Stopped? || r == Failed(VerifiedMoveOutcomeUnknown)
  }
}
