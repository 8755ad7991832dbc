// crates/myvault-core/src/vault.rs: the held vault and its content mutations. Filesystem
// calls are the small methods at the top; every one may fail, and a call may be cut off
// between any two of them, unless the vault is `calm`.

module VaultCore {
  import opened Wrappers
  import opened Tree
  import opened Paths
  import opened Disk

  class Vault {
    const naming: Naming
    const hash: Bytes -> string
    var root: Node
    var objects: map<nat, FileObject>
    var next: nat   // the next unused file object
    var calm: bool  // no failure and no stop happens while this holds
    ghost var steps: Trace  // all flushes and name changes so far

    constructor (naming: Naming, hash: Bytes -> string)
      ensures Valid() && root == Dir(map[]) && objects == map[]
      ensures this.naming == naming && this.hash == hash
    {
      this.naming := naming;
      this.hash := hash;
      root := Dir(map[]);
      objects := map[];
      next := 0;
      calm := false;
      steps := Begin;
      new;
      forall p ensures !At(root, p).IsFile? {
        assert p != [] ==> Sub(root, p) == None;
      }
    }

    ghost function View(): State
      reads this`root, this`objects
    {
      State(root, objects)
    }

    ghost predicate Valid()
      reads this`root, this`objects, this`next
    {
      WellFormed(View()) && forall o :: o in objects ==> o < next
    }

    /** From here on nothing fails. */
    method Calm()
      requires Valid()
      modifies this`calm
      ensures Valid() && calm && View() == old(View())
    {
      calm := true;
    }

    // ----- Filesystem calls

    /** Some call fails, or the process stops. */
    method Fault() returns (bad: bool)
      ensures calm ==> !bad
    {
      bad := false;
      if !calm {
        bad := *;
      }
    }

    /** Flushes a directory or a file. */
    method Sync(p: Path) returns (r: SyncResult)
      modifies this`steps
      ensures steps == Then(old(steps), Flush(p, r))
      ensures calm ==> r == Synced(FullySynced)
    {
      r := Synced(FullySynced);
      if !calm {
        r := *;
      }
      steps := Then(steps, Flush(p, r));
    }

    /** A directory that cannot be reopened counts as one whose flush failed. */
    method SyncIf(reached: bool, p: Path) returns (r: SyncResult)
      modifies this`steps
      ensures steps == Then(old(steps), Flush(p, r))
      ensures !reached ==> r == SyncFailed
      ensures calm && reached ==> r == Synced(FullySynced)
    {
      if reached {
        r := Sync(p);
      } else {
        r := SyncFailed;
        steps := Then(steps, Flush(p, r));
      }
    }

    method EntryExists(p: Path) returns (r: Result<bool, Error>)
      ensures r.Ok? ==> r.value == (At(root, p) != Absent)
      ensures calm ==> r.Ok?
    {
      var bad := Fault();
      r := if bad then Err(Io) else Ok(At(root, p) != Absent);
    }

    method RejectSiblingCollision(d: Path, name: string) returns (r: Result<(), Error>)
      ensures r.Ok? ==> NoCollision(naming, root, d, name)
      ensures r.Err? ==> r.error == Io || (r.error == PortablePathCollision && !NoCollision(naming, root, d, name))
      ensures calm && NoCollision(naming, root, d, name) ==> r.Ok?
    {
      var bad := Fault();
      if bad {
        return Err(Io);
      }
      NamesAt(root, d);
      var todo := Names(root, d);
      while todo != {}
        invariant todo <= Names(root, d)
        invariant forall x :: x in Names(root, d) - todo && naming.key(x) == naming.key(name) ==> x == name
        decreases |todo|
      {
        var existing :| existing in todo;
        if existing != name && naming.key(existing) == naming.key(name) {
          return Err(PortablePathCollision);
        }
        todo := todo - {existing};
      }
      return Ok(());
    }

    /** Opens the parent of `p` component by component, refusing a colliding sibling and
        anything that is not a directory on the way. */
    method OpenParentChecked(p: Path) returns (r: Result<(), Error>)
      requires p != [] && Valid()
      ensures r.Ok? ==> At(root, Parent(p)) == IsDir && Clear(naming, root, Parent(p))
      ensures r.Err? ==> r.error == Io || r.error == PortablePathCollision || r.error == NotFound || r.error == SymlinkRejected
      ensures calm && At(root, Parent(p)) == IsDir && Clear(naming, root, Parent(p)) ==> r.Ok?
    {
      var i := 0;
      while i < |p| - 1
        invariant 0 <= i <= |p| - 1
        invariant At(root, p[..i]) == IsDir
        invariant forall j :: 0 <= j < i ==> NoCollision(naming, root, p[..j], p[j])
      {
        assert Parent(p)[..i] == p[..i] && Parent(p)[i] == p[i];
        var c := RejectSiblingCollision(p[..i], p[i]);
        if c.Err? {
          return Err(c.error);
        }
        var bad := Fault();
        if bad {
          return Err(Io);
        }
        assert Parent(p)[..i + 1] == p[..i + 1];
        if At(root, p[..i + 1]) != IsDir {
          if At(root, Parent(p)) == IsDir && i + 1 < |p| - 1 {
            PrefixIsDir(root, Parent(p), i + 1);
          }
          return Err(if At(root, p[..i + 1]) == Absent then NotFound else SymlinkRejected);
        }
        i := i + 1;
      }
      forall j | 0 <= j < |Parent(p)| ensures NoCollision(naming, root, Parent(p)[..j], Parent(p)[j]) {
        assert Parent(p)[..j] == p[..j] && Parent(p)[j] == p[j];
      }
      return Ok(());
    }

    method VerifyExpected(p: Path, expected: FileRevision, maxBytes: nat) returns (r: Result<(), Error>)
      requires Valid()
      ensures r.Ok? ==> At(root, p).IsFile? && expected.Valid() &&
                        var bytes := objects[At(root, p).obj].bytes;
                        FileRevision(hash(bytes), |bytes|) == expected && |bytes| <= maxBytes
      ensures calm && At(root, p).IsFile? && expected.Valid() && expected.byteLen <= maxBytes &&
              (var bytes := objects[At(root, p).obj].bytes; FileRevision(hash(bytes), |bytes|) == expected)
              ==> r.Ok?
      // A file with other bytes is told apart from every other refusal.
      ensures calm && expected.Valid() && Stale(p, expected, maxBytes) ==> r == Err(StaleRevision)
      ensures !expected.Valid() ==> r == Err(InvalidRevision)
    {
      if !expected.Valid() {
        return Err(InvalidRevision);
      }
      var bad := Fault();
      if bad {
        return Err(Io);
      }
      match At(root, p) {
        case Absent => return Err(NotFound);
        case IsSymlink => return Err(SymlinkRejected);
        case IsDir => return Err(RevisionTargetNotFile);
        case IsSpecial => return Err(RevisionTargetNotFile);
        case IsFile(o) =>
          var bytes := objects[o].bytes;
          if |bytes| > maxBytes {
            return Err(ResourceLimitExceeded);
          }
          if FileRevision(hash(bytes), |bytes|) != expected {
            return Err(StaleRevision);
          }
          return Ok(());
      }
    }

    /** A readable file of another revision is at `p`. */
    ghost predicate Stale(p: Path, expected: FileRevision, maxBytes: nat)
      reads this`root, this`objects
    {
      && At(root, p).IsFile? && At(root, p).obj in objects
      && var bytes := objects[At(root, p).obj].bytes;
      && |bytes| <= maxBytes && (hash(bytes) != expected.hex || |bytes| != expected.byteLen)
    }

    method VerifySingleLink(p: Path) returns (r: Result<(), Error>)
      requires Valid()
      ensures r.Ok? ==> At(root, p).IsFile? && objects[At(root, p).obj].links == 1
      ensures calm && At(root, p).IsFile? && objects[At(root, p).obj].links == 1 ==> r.Ok?
    {
      var bad := Fault();
      if bad {
        return Err(Io);
      }
      match At(root, p) {
        case Absent => return Err(NotFound);
        case IsSymlink => return Err(SymlinkRejected);
        case IsDir => return Err(InvalidMove);
        case IsSpecial => return Err(InvalidMove);
        case IsFile(o) =>
          if objects[o].links != 1 {
            return Err(InvalidMove);
          }
          return Ok(());
      }
    }

    /** Both checks on one file: its revision and its single link. */
    method VerifyWithin(p: Path, expected: FileRevision, maxBytes: nat) returns (r: Result<(), Error>)
      requires Valid()
      ensures r.Ok? ==> Exact(hash, View(), p, expected) && expected.Valid() && expected.byteLen <= maxBytes
      ensures calm && Exact(hash, View(), p, expected) && expected.Valid() && expected.byteLen <= maxBytes ==> r.Ok?
      ensures calm && expected.Valid() && Stale(p, expected, maxBytes) ==> r == Err(StaleRevision)
    {
      r := VerifyExpected(p, expected, maxBytes);
      if r.Ok? {
        r := VerifySingleLink(p);
      }
    }

    /** The same with the limit of moves and trash payloads. */
    method VerifyEntry(p: Path, expected: FileRevision) returns (r: Result<(), Error>)
      requires Valid()
      ensures r.Ok? ==> Exact(hash, View(), p, expected)
      ensures calm && Exact(hash, View(), p, expected) && expected.Valid() && expected.byteLen <= MAX_TRASH_PAYLOAD_BYTES ==> r.Ok?
    {
      r := VerifyWithin(p, expected, MAX_TRASH_PAYLOAD_BYTES);
    }

    /** The atomic no-replace rename of the platform. */
    method RenameNoReplace(s: Path, d: Path) returns (r: Result<(), Error>)
      requires s != [] && d != [] && Valid()
      modifies this`root, this`steps
      ensures r.Ok? ==> steps == Then(old(steps), Move(s, d))
      ensures r.Err? ==> steps == old(steps)
      ensures r.Ok? ==> old(CanRename(root, s, d)) && root == Rename(old(root), s, d)
      ensures r.Err? ==> root == old(root) && (r.error == AlreadyExists || r.error == Io)
      ensures At(old(root), d) != Absent ==> r == Err(AlreadyExists)
      ensures calm && old(CanRename(root, s, d)) ==> r.Ok?
      ensures Valid()
    {
      if At(root, d) != Absent {
        return Err(AlreadyExists);
      }
      var bad := Fault();
      if bad || !CanRename(root, s, d) {
        return Err(Io);
      }
      RenameWellFormed(View(), s, d);
      root := Rename(root, s, d);
      steps := Then(steps, Move(s, d));
      return Ok(());
    }

    /** `create_dir`: never touches an existing entry. */
    method MakeDir(p: Path) returns (r: Result<(), Error>)
      requires p != [] && Valid()
      modifies this`root, this`steps
      ensures Valid()
      ensures r.Ok? ==> steps == Then(old(steps), Make(p))
      ensures r.Err? ==> steps == old(steps)
      ensures r.Ok? ==> At(old(root), p) == Absent && At(old(root), Parent(p)) == IsDir && Shows(old(root), root, p, IsDir)
      ensures r.Err? ==> root == old(root) && (r.error == AlreadyExists ==> At(root, p) != Absent)
      ensures calm && At(old(root), p) == Absent && At(old(root), Parent(p)) == IsDir ==> r.Ok?
      ensures calm && At(old(root), p) != Absent ==> r == Err(AlreadyExists)
    {
      var bad := Fault();
      if bad {
        return Err(Io);
      }
      if At(root, p) != Absent {
        return Err(AlreadyExists);
      }
      if At(root, Parent(p)) != IsDir {
        return Err(NotFound);
      }
      AddAt(root, p, Dir(map[]));
      root := Put(root, p, Some(Dir(map[])));
      steps := Then(steps, Make(p));
      return Ok(());
    }

    /** Opens a new empty file with `create_new`. */
    method CreateNew(p: Path) returns (r: Result<nat, Error>)
      requires p != [] && Valid()
      modifies this`root, this`objects, this`next
      ensures Valid()
      ensures r.Ok? ==> && At(old(root), p) == Absent && At(old(root), Parent(p)) == IsDir
                        && r.value !in old(objects) && Shows(old(root), root, p, IsFile(r.value))
                        && objects == old(objects)[r.value := FileObject([], 1)]
      ensures r.Err? ==> root == old(root) && objects == old(objects)
      ensures calm && At(old(root), p) == Absent && At(old(root), Parent(p)) == IsDir ==> r.Ok?
    {
      var bad := Fault();
      if bad {
        return Err(Io);
      }
      if At(root, p) != Absent {
        return Err(AlreadyExists);
      }
      if At(root, Parent(p)) != IsDir {
        return Err(NotFound);
      }
      AddAt(root, p, File(next));
      r := Ok(next);
      root := Put(root, p, Some(File(next)));
      objects := objects[next := FileObject([], 1)];
      next := next + 1;
    }

    /** Writes a file from the start and flushes it; a failure may leave a shorter prefix. */
    method WriteAll(o: nat, contents: Bytes) returns (r: Result<(), Error>)
      requires o in objects && Valid()
      modifies this`objects
      ensures Valid()
      ensures objects.Keys == old(objects).Keys && objects[o].links == old(objects[o].links)
      ensures forall x :: x in objects && x != o ==> objects[x] == old(objects[x])
      ensures r.Ok? ==> objects[o].bytes == contents
      ensures calm ==> r.Ok?
    {
      var bad := Fault();
      if bad {
        var k :| 0 <= k <= |contents|;
        objects := objects[o := objects[o].(bytes := contents[..k])];
        return Err(Io);
      }
      objects := objects[o := objects[o].(bytes := contents)];
      return Ok(());
    }

    /** `hard_link`: a second name for the same object, never replacing anything. */
    method HardLink(s: Path, d: Path) returns (r: Result<(), Error>)
      requires s != [] && d != [] && Valid() && At(root, s).IsFile?
      modifies this`root, this`objects, this`steps
      ensures Valid()
      ensures r.Ok? ==> steps == Then(old(steps), Link(s, d))
      ensures r.Err? ==> steps == old(steps)
      ensures r.Ok? ==> && At(old(root), d) == Absent && Shows(old(root), root, d, At(old(root), s))
                        && var o := At(old(root), s).obj;
                           objects == old(objects)[o := old(objects)[o].(links := old(objects)[o].links + 1)]
      ensures r.Err? ==> root == old(root) && objects == old(objects)
      ensures calm && At(old(root), d) == Absent && At(old(root), Parent(d)) == IsDir ==> r.Ok?
    {
      var bad := Fault();
      if bad {
        return Err(Io);
      }
      if At(root, d) != Absent {
        return Err(AlreadyExists);
      }
      if At(root, Parent(d)) != IsDir {
        return Err(NotFound);
      }
      var o := At(root, s).obj;
      AddAt(root, d, File(o));
      root := Put(root, d, Some(File(o)));
      objects := objects[o := objects[o].(links := objects[o].links + 1)];
      steps := Then(steps, Link(s, d));
      return Ok(());
    }

    method RemoveFile(p: Path) returns (r: Result<(), Error>)
      requires p != [] && Valid() && At(root, p).IsFile?
      modifies this`root, this`objects, this`steps
      ensures Valid()
      ensures r.Ok? ==> steps == Then(old(steps), Unlink(p))
      ensures r.Err? ==> steps == old(steps)
      ensures r.Ok? ==> Shows(old(root), root, p, Absent) && objects == Unlinked(old(objects), At(old(root), p))
      ensures r.Err? ==> root == old(root) && objects == old(objects)
      ensures calm ==> r.Ok?
    {
      var bad := Fault();
      if bad {
        return Err(Io);
      }
      RemoveAt(root, p);
      objects := Unlinked(objects, At(root, p));
      root := Put(root, p, None);
      steps := Then(steps, Unlink(p));
      return Ok(());
    }

    /** The ordinary rename of one file within a directory, which replaces whatever is at `d`
        unless it is a directory. */
    method RenameOver(s: Path, d: Path) returns (r: Result<(), Error>)
      requires s != [] && d != [] && s != d && Valid() && At(root, s).IsFile? && At(root, Parent(d)) == IsDir
      modifies this`root, this`objects, this`steps
      ensures Valid()
      ensures r.Ok? ==> steps == Then(old(steps), Move(s, d))
      ensures r.Err? ==> steps == old(steps)
      ensures r.Ok? ==> && At(old(root), d) != IsDir
                        && objects == Unlinked(old(objects), At(old(root), d))
                        && forall q {:trigger At(root, q)} ::
                             At(root, q) == if q == d then At(old(root), s) else if q == s then Absent else At(old(root), q)
      ensures r.Err? ==> root == old(root) && objects == old(objects)
      ensures calm && At(old(root), d) != IsDir ==> r.Ok?
    {
      var bad := Fault();
      if bad || At(root, d) == IsDir {
        return Err(Io);
      }
      var o := At(root, s).obj;
      objects := Unlinked(objects, At(root, d));
      RemoveAt(root, s);
      var gone := Put(root, s, None);
      if s == Parent(d) { assert false; }
      AddAt(gone, d, File(o));
      root := Put(gone, d, Some(File(o)));
      steps := Then(steps, Move(s, d));
      return Ok(());
    }

    method OpenParent(p: Path) returns (r: Result<(), Error>)
      requires p != [] && Valid()
      ensures r.Ok? ==> At(root, Parent(p)) == IsDir
      ensures calm && At(root, Parent(p)) == IsDir ==> r.Ok?
    {
      var bad := Fault();
      if bad {
        return Err(Io);
      }
      return if At(root, Parent(p)) == IsDir then Ok(()) else Err(NotFound);
    }

    /** Flushes the parents of both ends, the one of the destination first, a shared one once;
        both attempts are made before either result is looked at. */
    method SyncParents(source: Path, destination: Path) returns (report: MoveSyncReport)
      requires source != [] && destination != []
      modifies this`steps
      ensures report.source.None? <==> Parent(source) == Parent(destination)
      ensures steps == RoundSteps(old(steps), report, source, destination)
      ensures calm ==> report.destination == Synced(FullySynced) && (report.source.Some? ==> report.source.value == Synced(FullySynced))
    {
      var d := Sync(Parent(destination));
      if Parent(source) == Parent(destination) {
        return MoveSyncReport(d, None);
      }
      var s := Sync(Parent(source));
      return MoveSyncReport(d, Some(s));
    }

    /** The same when a parent cannot be reopened: the one that can is still flushed. */
    method SyncReached(source: Path, destination: Path, sourceReached: bool, destinationReached: bool) returns (report: MoveSyncReport)
      requires source != [] && destination != []
      modifies this`steps
      ensures report.source.None? <==> Parent(source) == Parent(destination)
      ensures steps == RoundSteps(old(steps), report, source, destination)
      ensures calm && destinationReached ==> report.destination == Synced(FullySynced)
      ensures calm && sourceReached && report.source.Some? ==> report.source.value == Synced(FullySynced)
    {
      var shared := Parent(source) == Parent(destination);
      var d := SyncIf(destinationReached || (shared && sourceReached), Parent(destination));
      if shared {
        return MoveSyncReport(d, None);
      }
      var s := SyncIf(sourceReached, Parent(source));
      return MoveSyncReport(d, Some(s));
    }

    // ----- Content moves

    /** `verify_content_move_topology`: the file is exactly at the destination only. */
    method VerifyContentMoveTopology(source: Path, destination: Path, expected: FileRevision) returns (r: Result<(), Error>)
      requires source != [] && destination != [] && Valid()
      ensures r.Ok? ==> Exact(hash, View(), destination, expected) && At(root, source) == Absent
      ensures calm && SettledAt(source, destination, expected) ==> r.Ok?
    {
      r := OpenParentChecked(destination);
      if r.Err? { return; }
      r := OpenParentChecked(source);
      if r.Err? { return; }
      r := VerifyEntry(destination, expected);
      if r.Err? { return; }
      var e := EntryExists(source);
      r := if e.Err? then Err(e.error) else if e.value then Err(InvalidMove) else Ok(());
    }

    /** The checks on the request alone. */
    method CheckMoveRequest(source: Path, destination: Path, expected: FileRevision) returns (r: Result<(), Error>)
      requires source != [] && destination != []
      ensures r.Ok? <==> MoveRequestOk(naming, source, destination, expected)
    {
      if Classify(naming, source) != Content || Classify(naming, destination) != Content {
        return Err(InvalidMove);
      }
      if source == destination || CollisionKey(naming, source) == CollisionKey(naming, destination) {
        return Err(InvalidMove);
      }
      if !expected.Valid() {
        return Err(InvalidRevision);
      }
      if expected.byteLen > MAX_TRASH_PAYLOAD_BYTES {
        return Err(ResourceLimitExceeded);
      }
      return Ok(());
    }

    /** Opens both parents and flushes them; the report is kept even when it is a failure. */
    method FlushEnds(source: Path, destination: Path) returns (r: Result<(), Error>, report: Option<MoveSyncReport>)
      requires source != [] && destination != [] && Valid()
      modifies this`steps
      ensures steps == MaybeSteps(old(steps), report, source, destination)
      ensures report.Some? ==> report.value.source.None? == (Parent(source) == Parent(destination))
      ensures r.Ok? ==> report.Some? && !report.value.HasFailure()
      ensures report.Some? && report.value.HasFailure() ==> r == Err(MoveContentPrepublicationSyncFailed)
      ensures report.Some? ==> At(root, Parent(source)) == IsDir && At(root, Parent(destination)) == IsDir
      ensures calm && At(root, Parent(source)) == IsDir && At(root, Parent(destination)) == IsDir ==>
                r.Ok? && report.value.IntoResult() == Ok(FullySynced)
    {
      var c := OpenParent(destination);
      if c.Err? { return Err(c.error), None; }
      c := OpenParent(source);
      if c.Err? { return Err(c.error), None; }
      var round := SyncParents(source, destination);
      return if round.HasFailure() then Err(MoveContentPrepublicationSyncFailed) else Ok(()), Some(round);
    }

    /** Which of the two ends exist, once nothing on the way to them collides. */
    method ObserveEnds(source: Path, destination: Path) returns (r: Result<(bool, bool), Error>)
      requires source != [] && destination != [] && Valid()
      ensures r.Ok? ==> EndsClear(naming, root, source, destination) && r.value == (At(root, source) != Absent, At(root, destination) != Absent)
      ensures calm && EndsClear(naming, root, source, destination) ==> r.Ok?
    {
      var c := OpenClearEnds(source, destination);
      if c.Err? { return Err(c.error); }
      var sourceExists := EntryExists(source);
      if sourceExists.Err? { return Err(sourceExists.error); }
      var destinationExists := EntryExists(destination);
      if destinationExists.Err? { return Err(destinationExists.error); }
      return Ok((sourceExists.value, destinationExists.value));
    }

    /** The read-only half of a content move: it checks the request, flushes both parents and
        tells which ends exist. */
    method ClassifyMove(source: Path, destination: Path, expected: FileRevision)
      returns (r: Result<(bool, bool), Error>, report: Option<MoveSyncReport>)
      requires source != [] && destination != [] && Valid()
      modifies this`steps
      ensures steps == MaybeSteps(old(steps), report, source, destination)
      ensures report.Some? ==> report.value.source.None? == (Parent(source) == Parent(destination))
      ensures r.Ok? ==>
                && MoveRequestOk(naming, source, destination, expected) && EndsClear(naming, root, source, destination)
                && r.value == (At(root, source) != Absent, At(root, destination) != Absent)
                && report.Some? && !report.value.HasFailure()
      ensures report.Some? && report.value.HasFailure() ==> r == Err(MoveContentPrepublicationSyncFailed)
      ensures calm && MoveRequestOk(naming, source, destination, expected) && EndsClear(naming, root, source, destination) ==>
                r.Ok? && report.value.IntoResult() == Ok(FullySynced)
    {
      var c := CheckMoveRequest(source, destination, expected);
      if c.Err? { return Err(c.error), None; }
      c, report := FlushEnds(source, destination);
      if c.Err? { return Err(c.error), report; }
      r := ObserveEnds(source, destination);
    }

    /** Opens both parents and refuses a colliding sibling at either end. */
    method OpenClearEnds(source: Path, destination: Path) returns (r: Result<(), Error>)
      requires source != [] && destination != [] && Valid()
      ensures r.Ok? ==> EndsClear(naming, root, source, destination)
      ensures calm && EndsClear(naming, root, source, destination) ==> r.Ok?
    {
      if EndsClear(naming, root, source, destination) {
        ClearParent(naming, root, source);
        ClearParent(naming, root, destination);
      }
      r := OpenParentChecked(destination);
      if r.Err? { return; }
      r := OpenParentChecked(source);
      if r.Err? { return; }
      r := RejectSiblingCollision(Parent(source), Leaf(source));
      if r.Err? { return; }
      r := RejectSiblingCollision(Parent(destination), Leaf(destination));
      if r.Err? { return; }
      ClearAll(naming, root, source);
      ClearAll(naming, root, destination);
    }

    /** `move_content_file_with_hooks_and_mode` */
    method MoveContent(source: Path, destination: Path, expected: FileRevision, mode: Mode)
      returns (r: Outcome<MoveContentOutcome>, log: MoveLog)
      requires source != [] && destination != [] && Valid()
      modifies this`root, this`steps
      ensures Valid()
      ensures steps == log.Steps(old(steps), source, destination)
      ensures MoveEffect(naming, hash, old(View()), View(), source, destination, expected, r, log)
      ensures mode == Resume ==> root == old(root) && (old(At(root, source)) != Absent ==> r.Failed?)
      // With no failure the outcome is decided by the request and the two ends alone.
      ensures calm && old(MoveRequestOk(naming, source, destination, expected) && EndsClear(naming, root, source, destination)) ==>
                DecidedByEnds(old(SeenOf(hash, View(), source, destination, expected)), mode, r)
    {
      ghost var pre := View();
      var topology, classified := ClassifyMove(source, destination, expected);
      if topology.Err? {
        r, log := Failed(topology.error), MoveLog(classified, false, None, None);
        NothingMoved(naming, hash, pre, source, destination, expected, topology.error, log);
      } else {
        r, log := DecideMove(source, destination, expected, mode, topology.value, classified.value);
      }
    }

    /** What follows from the two ends that exist. */
    method DecideMove(source: Path, destination: Path, expected: FileRevision, mode: Mode, topology: (bool, bool), classified: MoveSyncReport)
      returns (r: Outcome<MoveContentOutcome>, log: MoveLog)
      requires source != [] && destination != [] && Valid()
      requires MoveRequestOk(naming, source, destination, expected) && EndsClear(naming, root, source, destination)
      requires topology == (At(root, source) != Absent, At(root, destination) != Absent)
      requires !classified.HasFailure() && classified.source.None? == (Parent(source) == Parent(destination))
      modifies this`root, this`steps
      ensures Valid()
      ensures steps == log.Later(old(steps), source, destination)
      ensures MoveEffect(naming, hash, old(View()), View(), source, destination, expected, r, log) && log.classified == Some(classified)
      ensures mode == Resume ==> root == old(root) && (old(At(root, source)) != Absent ==> r.Failed?)
      ensures calm && classified.IntoResult() == Ok(FullySynced) ==> DecidedByEnds(old(SeenOf(hash, View(), source, destination, expected)), mode, r)
    {
      log := MoveLog(Some(classified), false, None, None);
      match topology {
        case (true, true) => r := Failed(AlreadyExists);
        case (false, false) => r := Failed(InvalidMove);
        case (false, true) => r := RecogniseMove(source, destination, expected, classified);
        case (true, false) =>
          if mode == Resume {
            r := Failed(InvalidMove);
          } else {
            r, log := PublishMove(source, destination, expected, classified);
          }
      }
    }

    /** A move that happened before is recognised by the exact file at the destination alone. */
    method RecogniseMove(source: Path, destination: Path, expected: FileRevision, classified: MoveSyncReport)
      returns (r: Outcome<MoveContentOutcome>)
      requires source != [] && destination != [] && Valid() && !classified.HasFailure()
      requires MoveRequestOk(naming, source, destination, expected) && EndsClear(naming, root, source, destination)
      ensures r.Failed? || (r == Done(AlreadyMoved(classified.IntoResult().value)) &&
                            At(root, source) == Absent && Exact(hash, View(), destination, expected))
      ensures calm && At(root, source) == Absent && Exact(hash, View(), destination, expected) ==> r.Done?
    {
      ClearParent(naming, root, source);
      ClearParent(naming, root, destination);
      var c := VerifyContentMoveTopology(source, destination, expected);
      if c.Err? { return Failed(c.error); }
      return Done(AlreadyMoved(classified.IntoResult().value));
    }

    /** The publishing half: verify, rename, flush, verify again. */
    method PublishMove(source: Path, destination: Path, expected: FileRevision, classified: MoveSyncReport)
      returns (r: Outcome<MoveContentOutcome>, log: MoveLog)
      requires source != [] && destination != [] && Valid()
      requires MoveRequestOk(naming, source, destination, expected) && EndsClear(naming, root, source, destination)
      requires At(root, destination) == Absent && !classified.HasFailure()
      requires classified.source.None? == (Parent(source) == Parent(destination))
      modifies this`root, this`steps
      ensures Valid()
      ensures steps == log.Later(old(steps), source, destination)
      ensures MoveEffect(naming, hash, old(View()), View(), source, destination, expected, r, log) && log.classified == Some(classified)
      ensures calm && old(Exact(hash, View(), source, expected)) && classified.IntoResult() == Ok(FullySynced)
              ==> r == Done(Moved(FullySynced))
    {
      log := MoveLog(Some(classified), false, None, None);
      forall e | !classified.HasFailure() {
        NothingMoved(naming, hash, View(), source, destination, expected, e, log);
      }
      var c := VerifyEntry(source, expected);
      if c.Err? { return Failed(c.error), log; }
      var stop := Fault();
      if stop { return Stopped, log; }
      FileCanRename(root, source, destination);
      c := RenameNoReplace(source, destination);
      if c.Err? { return Failed(c.error), log; }
      ExactAfterMove(naming, hash, old(View()), source, destination, expected);
      r, log := SettleMove(source, destination, expected, classified);
      MovedEffect(naming, hash, old(View()), View(), source, destination, expected, r, log);
    }

    /** The steps after the rename: flush, confirm a failed flush, verify. */
    method SettleMove(source: Path, destination: Path, expected: FileRevision, classified: MoveSyncReport)
      returns (r: Outcome<MoveContentOutcome>, log: MoveLog)
      requires source != [] && destination != [] && Valid() && !classified.HasFailure()
      requires classified.source.None? == (Parent(source) == Parent(destination))
      modifies this`steps
      ensures steps == MaybeSteps(MaybeSteps(old(steps), log.first, source, destination), log.second, source, destination)
      ensures log.renamed && log.classified == Some(classified) && log.InOrder(Parent(source) == Parent(destination)) && log.Cautious()
      ensures r.Stopped? || r == Failed(VerifiedMoveOutcomeUnknown) || (r.Done? && r.value.Moved? && log.Reports(r.value.durability))
      ensures calm && SettledAt(source, destination, expected) && classified.IntoResult() == Ok(FullySynced)
              ==> r == Done(Moved(FullySynced))
    {
      var shared := Parent(source) == Parent(destination);
      var durability := classified.IntoResult().value;
      log := MoveLog(Some(classified), true, None, None);
      var stop := Fault();
      if stop { return Stopped, log; }
      var first := SyncParents(source, destination);
      log := log.(first := Some(first));
      stop := Fault();
      if stop { return Stopped, log; }
      if first.HasFailure() {
        var second;
        r, second := ConfirmContentMove(source, destination, expected, durability);
        return r, log.(second := Some(second));
      }
      var c := VerifyContentMoveTopology(source, destination, expected);
      if c.Err? { return Failed(VerifiedMoveOutcomeUnknown), log; }
      return Done(Moved(durability.Combine(first.IntoResult().value))), log;
    }

    /** The moved file is in place and both parents can be reached without a collision. */
    ghost predicate SettledAt(source: Path, destination: Path, expected: FileRevision)
      requires source != [] && destination != []
      reads this`root, this`objects
    {
      && At(root, Parent(source)) == IsDir && Clear(naming, root, Parent(source))
      && At(root, Parent(destination)) == IsDir && Clear(naming, root, Parent(destination))
      && Exact(hash, View(), destination, expected) && At(root, source) == Absent
      && expected.Valid() && expected.byteLen <= MAX_TRASH_PAYLOAD_BYTES
    }

    /** `confirm_content_move`: one more sync round after a failed one, then the same check.
        A parent that cannot be reopened counts as not synced. */
    method ConfirmContentMove(source: Path, destination: Path, expected: FileRevision, classified: MoveDurability)
      returns (r: Outcome<MoveContentOutcome>, report: MoveSyncReport)
      requires source != [] && destination != [] && Valid()
      modifies this`steps
      ensures steps == RoundSteps(old(steps), report, source, destination)
      ensures report.source.None? == (Parent(source) == Parent(destination))
      ensures r.Stopped? || r == Failed(VerifiedMoveOutcomeUnknown) ||
              (!report.HasFailure() && r == Done(Moved(classified.Combine(report.IntoResult().value))))
      ensures r.Done? ==> Exact(hash, View(), destination, expected) && At(root, source) == Absent
      // A clean second round and the file in place make it a success.
      ensures calm && SettledAt(source, destination, expected) ==> r == Done(Moved(classified))
    {
      var d := OpenParent(destination);
      var s := OpenParent(source);
      if d.Err? || s.Err? {
        report := SyncReached(source, destination, s.Ok?, d.Ok?);
        return Failed(VerifiedMoveOutcomeUnknown), report;
      }
      report := SyncParents(source, destination);
      var stop := Fault();
      if stop { return Stopped, report; }
      var c := VerifyContentMoveTopology(source, destination, expected);
      if c.Err? || report.HasFailure() {
        return Failed(VerifiedMoveOutcomeUnknown), report;
      }
      return Done(Moved(classified.Combine(report.IntoResult().value))), report;
    }
  }

  /** What one call of the content move may do, whatever it returns: the exact file moved or
      nothing did; only success or an unknown outcome is reported after the rename; and the
      log tells the order of the disk steps and the durability that success reports. */
  ghost predicate MoveEffect(n: Naming, hash: Bytes -> string, pre: State, post: State, s: Path, d: Path, expected: FileRevision,
                             r: Outcome<MoveContentOutcome>, log: MoveLog)
    requires s != [] && d != []
  {
    && (post == pre || ContentMoved(n, hash, pre, post, s, d, expected)) && Honest(pre.root, post.root, r)
    && log.InOrder(Parent(s) == Parent(d)) && log.Cautious() && (log.renamed <==> post.root != pre.root)
    && (log.classified.Some? && log.classified.value.HasFailure() ==> r == Failed(MoveContentPrepublicationSyncFailed))
    && (r.Done? && r.value.Moved? ==> log.renamed && log.Reports(r.value.durability))
    && (r.Done? && r.value.AlreadyMoved? ==>
          && post == pre && At(pre.root, s) == Absent && Exact(hash, pre, d, expected)
          && log.classified.Some? && log.classified.value.IntoResult() == Ok(r.value.durability))
  }

  lemma NothingMoved(n: Naming, hash: Bytes -> string, pre: State, s: Path, d: Path, expected: FileRevision, e: Error, log: MoveLog)
    requires s != [] && d != [] && log == MoveLog(log.classified, false, None, None)
    requires log.classified.Some? ==> log.classified.value.source.None? == (Parent(s) == Parent(d))
    requires log.classified.Some? && log.classified.value.HasFailure() ==> e == MoveContentPrepublicationSyncFailed
    ensures MoveEffect(n, hash, pre, pre, s, d, expected, Failed(e), log)
  {
  }

  lemma MovedEffect(n: Naming, hash: Bytes -> string, pre: State, post: State, s: Path, d: Path, expected: FileRevision,
                    r: Outcome<MoveContentOutcome>, log: MoveLog)
    requires s != [] && d != [] && ContentMoved(n, hash, pre, post, s, d, expected) && post.root != pre.root
    requires log.renamed && log.InOrder(Parent(s) == Parent(d)) && log.Cautious()
    requires r.Stopped? || r == Failed(VerifiedMoveOutcomeUnknown) || (r.Done? && r.value.Moved? && log.Reports(r.value.durability))
    ensures MoveEffect(n, hash, pre, post, s, d, expected, r, log)
  {
  }

  /** What can be seen of the two ends of a move. */
  datatype EndsSeen = EndsSeen(source: bool, destination: bool, sourceExact: bool, destinationExact: bool)

  ghost function SeenOf(hash: Bytes -> string, s: State, source: Path, destination: Path, expected: FileRevision): EndsSeen {
    EndsSeen(At(s.root, source) != Absent, At(s.root, destination) != Absent, Exact(hash, s, source, expected), Exact(hash, s, destination, expected))
  }

  /** With no failure: two files or none are refused, the exact file at the source alone is
      moved unless the call only resumes, and at the destination alone it is recognised. */
  ghost predicate DecidedByEnds(ends: EndsSeen, mode: Mode, r: Outcome<MoveContentOutcome>) {
    && (ends.source && ends.destination ==> r == Failed(AlreadyExists))
    && (!ends.source && !ends.destination ==> r == Failed(InvalidMove))
    && (ends.source && !ends.destination && mode == Resume ==> r == Failed(InvalidMove))
    && (ends.source && !ends.destination && mode == Fresh && ends.sourceExact ==> r == Done(Moved(FullySynced)))
    && (!ends.source && ends.destination && ends.destinationExact ==> r == Done(AlreadyMoved(FullySynced)))
    && ((ends.source && !ends.sourceExact) || (ends.destination && !ends.destinationExact) ==> !r.Done?)
  }

  /** The new tree differs from the old one only in what it shows at `p`. */
  ghost predicate Shows(pre: Node, post: Node, p: Path, e: Entry) {
    forall q :: At(post, q) == if q == p then e else At(pre, q)
  }

  /** Taking a name away from a file leaves its object one link fewer. */
  function Unlinked(objects: map<nat, FileObject>, e: Entry): map<nat, FileObject> {
    if e.IsFile? && e.obj in objects && objects[e.obj].links > 0 then
      objects[e.obj := objects[e.obj].(links := objects[e.obj].links - 1)]
    else objects
  }

  lemma ClearAll(n: Naming, root: Node, p: Path)
    requires p != [] && Clear(n, root, Parent(p)) && NoCollision(n, root, Parent(p), Leaf(p))
    ensures Clear(n, root, p)
  {
    forall i | 0 <= i < |p| ensures NoCollision(n, root, p[..i], p[i]) {
      if i < |p| - 1 {
        assert Parent(p)[..i] == p[..i] && Parent(p)[i] == p[i];
      }
    }
  }

  lemma ClearParent(n: Naming, root: Node, p: Path)
    requires p != [] && Clear(n, root, p)
    ensures Clear(n, root, Parent(p)) && NoCollision(n, root, Parent(p), Leaf(p))
  {
    forall i | 0 <= i < |Parent(p)| ensures NoCollision(n, root, Parent(p)[..i], Parent(p)[i]) {
      assert Parent(p)[..i] == p[..i] && Parent(p)[i] == p[i];
    }
  }

  /** A directory path that was clear stays clear when a file moves to a clear place. */
  lemma ClearAfterMove(n: Naming, root: Node, s: Path, d: Path, q: Path)
    requires CanRename(root, s, d) && At(root, s).IsFile?
    requires Clear(n, root, d) && Clear(n, root, q) && At(root, q) == IsDir
    ensures Clear(n, Rename(root, s, d), q) && At(Rename(root, s, d), q) == IsDir
  {
    RenameFile(root, s, d);
    ClearParent(n, root, d);
    var after := Rename(root, s, d);
    forall i, x | 0 <= i < |q| && At(after, q[..i] + [x]) != Absent && n.key(x) == n.key(q[i])
      ensures x == q[i]
    {
      if q[..i] + [x] == d {
        assert Parent(d) == q[..i] && Leaf(d) == x;
        if i + 1 < |q| {
          PrefixIsDir(root, q, i + 1);
        }
        assert q[..i + 1] == q[..i] + [q[i]];
        assert i + 1 == |q| ==> q[..i + 1] == q;
        assert At(root, Parent(d) + [q[i]]) != Absent;
      } else {
        assert At(root, q[..i] + [x]) != Absent;
        assert NoCollision(n, root, q[..i], q[i]);
      }
    }
  }

  lemma ExactAfterMove(n: Naming, hash: Bytes -> string, pre: State, s: Path, d: Path, rev: FileRevision)
    requires CanRename(pre.root, s, d) && EndsClear(n, pre.root, s, d) && Exact(hash, pre, s, rev)
    ensures var post := pre.(root := Rename(pre.root, s, d));
            && Exact(hash, post, d, rev) && At(post.root, s) == Absent && post.root != pre.root
            && At(post.root, Parent(s)) == IsDir && Clear(n, post.root, Parent(s))
            && At(post.root, Parent(d)) == IsDir && Clear(n, post.root, Parent(d))
  {
    RenameFile(pre.root, s, d);
    ClearParent(n, pre.root, s);
    ClearParent(n, pre.root, d);
    ClearAfterMove(n, pre.root, s, d, Parent(s));
    ClearAfterMove(n, pre.root, s, d, Parent(d));
  }

  lemma FileCanRename(root: Node, s: Path, d: Path)
    requires s != [] && d != [] && At(root, s).IsFile? && At(root, d) == Absent && At(root, Parent(d)) == IsDir
    ensures CanRename(root, s, d)
  {
    if s <= d {
      assert s != d;
      if s != Parent(d) {
        NothingBelow(root, s, Parent(d));
      }
    }
  }

  lemma RenameWellFormed(v: State, s: Path, d: Path)
    requires WellFormed(v) && CanRename(v.root, s, d)
    ensures WellFormed(v.(root := Rename(v.root, s, d)))
  {
    RenameAll(v.root, s, d);
  }
}
