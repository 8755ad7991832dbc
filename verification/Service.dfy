// crates/myvault-app-service/src/lib.rs: the service object. Activation and closing replace
// the session; a save reads, snapshots and then compares and replaces in that session's vault.

module Service {
  import opened Wrappers
  import opened Tree
  import opened Paths
  import opened Disk
  import opened VaultCore
  import opened Mutations

  datatype OpenSession = OpenSession(id: nat, vaultId: nat, vault: Vault)

  datatype AppError = NoSession | StaleSession | InvalidPath | ResourceLimit | BadRevision | Stale | RecoveryUnavailable | Core(error: Error)

  datatype SaveOutcome = SavedNote(revision: FileRevision, durability: MoveDurability) | SaveFailed(error: AppError) | SaveStopped

  predicate NoteExtension(name: string) {
    |name| > 3 && (name[|name| - 3..] == ".md" || name[|name| - 3..] == ".MD")
  }

  /** A name with something before its extension, which is `md` or `MD`. */
  ghost predicate IsNote(name: string) {
    exists stem :: stem != "" && (name == stem + ".md" || name == stem + ".MD")
  }

  lemma NoteNames(name: string)
    ensures NoteExtension(name) <==> IsNote(name)
  {
    if NoteExtension(name) {
      var stem := name[..|name| - 3];
      assert name == stem + name[|name| - 3..];
    }
  }

  function Revision(hash: Bytes -> string, bytes: Bytes): FileRevision {
    FileRevision(hash(bytes), |bytes|)
  }

  /** A save was published in the vault: it replaced exactly the expected file. */
  ghost predicate NoteReplaced(hash: Bytes -> string, pre: State, post: State, p: Path, expected: FileRevision, text: Bytes) {
    Exact(hash, pre, p, expected) && Written(pre, post, p, text)
  }

  class AppService {
    /** Recovery snapshots are configured. */
    const recovering: bool
    var session: Option<OpenSession>
    var snapshots: set<(nat, Path, Bytes)>

    constructor (recovering: bool)
      ensures session == None && snapshots == {} && this.recovering == recovering
    {
      this.recovering := recovering;
      session := None;
      snapshots := {};
    }

    method Activate(id: nat, vaultId: nat, vault: Vault)
      modifies this`session
      ensures session == Some(OpenSession(id, vaultId, vault))
    {
      session := Some(OpenSession(id, vaultId, vault));
    }

    /** Closes exactly the requested session. */
    method Close(id: nat) returns (r: Result<(), AppError>)
      modifies this`session
      ensures r.Ok? <==> old(session).Some? && old(session).value.id == id
      ensures session == if r.Ok? then None else old(session)
    {
      if session.None? {
        return Err(NoSession);
      }
      if session.value.id != id {
        return Err(StaleSession);
      }
      session := None;
      return Ok(());
    }

    /** `read_note_with_revision` followed by the comparison of `save_note`. */
    method ReadExpected(v: Vault, p: Path, expected: FileRevision) returns (r: Result<Bytes, AppError>)
      requires v.Valid() && p != []
      ensures r.Ok? ==> Exact(v.hash, v.View(), p, expected) && r.value == v.objects[At(v.root, p).obj].bytes
      ensures r.Ok? ==> Classify(v.naming, p) == Content && NoteExtension(Leaf(p)) && At(v.root, Parent(p)) == IsDir &&
                        Clear(v.naming, v.root, Parent(p)) && |r.value| <= MAX_NOTE_BYTES
      ensures v.calm && Classify(v.naming, p) == Content && NoteExtension(Leaf(p)) && At(v.root, Parent(p)) == IsDir &&
              Clear(v.naming, v.root, p) && Exact(v.hash, v.View(), p, expected) && expected.byteLen <= MAX_NOTE_BYTES
              ==> r.Ok?
      ensures v.calm && Classify(v.naming, p) == Content && NoteExtension(Leaf(p)) && At(v.root, Parent(p)) == IsDir &&
              Clear(v.naming, v.root, p) && OtherText(v, p, expected)
              ==> r == Err(Stale)
    {
      if Classify(v.naming, p) != Content || !NoteExtension(Leaf(p)) { return Err(Core(InvalidRelativePath)); }
      if Clear(v.naming, v.root, p) { ClearParent(v.naming, v.root, p); }
      var c := v.OpenParentChecked(p);
      if c.Err? { return Err(Core(c.error)); }
      var bad := v.Fault();
      if bad { return Err(Core(Io)); }
      match At(v.root, p) {
        case Absent => return Err(Core(NotFound));
        case IsDir => return Err(Core(RevisionTargetNotFile));
        case IsSymlink => return Err(Core(SymlinkRejected));
        case IsSpecial => return Err(Core(RevisionTargetNotFile));
        case IsFile(o) =>
          var f := v.objects[o];
          if f.links != 1 { return Err(Core(InvalidRevision)); }
          if |f.bytes| > MAX_NOTE_BYTES { return Err(Core(ResourceLimitExceeded)); }
          if Revision(v.hash, f.bytes) != expected { return Err(Stale); }
          return Ok(f.bytes);
      }
    }

    /** The snapshot store only grows; publishing to it may fail, before or after it took effect. */
    method PublishSnapshot(v: Vault, vaultId: nat, p: Path, bytes: Bytes) returns (ok: bool)
      modifies this`snapshots
      ensures snapshots == old(snapshots) || snapshots == old(snapshots) + {(vaultId, p, bytes)}
      ensures ok ==> (vaultId, p, bytes) in snapshots
      ensures v.calm ==> ok
    {
      var bad := v.Fault();
      if bad { return false; }
      snapshots := snapshots + {(vaultId, p, bytes)};
      bad := v.Fault();
      return !bad;
    }

    /** `save_note_with_hook`: whatever happens, either at most a temporary file is left over, or
        the note of the requested session was at the expected revision, was replaced, and its
        old bytes were in the snapshot store by then. */
    method SaveNote(id: nat, p: Path, text: Bytes, expected: FileRevision, tempName: string) returns (r: SaveOutcome)
      requires p != [] && tempName != Leaf(p) && (session.Some? ==> session.value.vault.Valid())
      modifies this`snapshots
      modifies if session.Some? then {session.value.vault} else {}
      ensures session == old(session) && old(snapshots) <= snapshots
      // What is refused before the vault is looked at, in this order.
      ensures !IsNote(p[|p| - 1]) ==> r == SaveFailed(InvalidPath)
      ensures IsNote(p[|p| - 1]) && |text| > 16 * 1024 * 1024 ==> r == SaveFailed(ResourceLimit)
      ensures AcceptableSave(p, text, expected) && old(session.None?) ==> r == SaveFailed(NoSession)
      ensures AcceptableSave(p, text, expected) && old(session.Some? && session.value.id != id) ==> r == SaveFailed(StaleSession)
      ensures !AcceptableSave(p, text, expected) || old(session.None?) || old(session.value.id) != id ==>
                r.SaveFailed? && snapshots == old(snapshots) && (old(session.Some?) ==> session.value.vault.View() == old(session.value.vault.View()))
      ensures old(session.Some?) ==>
                var v := session.value.vault;
                && v.Valid() && v.calm == old(session.value.vault.calm)
                && (OnlyTemp(old(session.value.vault.View()), v.View(), Parent(p) + [tempName]) ||
                    (&& session.value.id == id && NoteReplaced(v.hash, old(session.value.vault.View()), v.View(), p, expected, text)
                     && (recovering ==> (session.value.vaultId, p, OldBytes(old(session.value.vault.View()), p)) in snapshots)))
                && (r.SavedNote? ==> session.value.id == id && r.revision == Revision(v.hash, text) &&
                                     NoteReplaced(v.hash, old(session.value.vault.View()), v.View(), p, expected, text))
                && (r.SavedNote? ==> v.steps == Then(Then(old(session.value.vault.steps), Move(Parent(p) + [tempName], p)),
                                                     Flush(Parent(p), Synced(r.durability))))
                && (v.calm && session.value.id == id && old(Savable(session.value.vault, p, text, expected, tempName)) ==>
                      r == SavedNote(Revision(v.hash, text), FullySynced))
                // A note that was changed in the meantime is never overwritten, and the call says so.
                && (v.calm && session.value.id == id && AcceptableSave(p, text, expected) && expected.byteLen <= MAX_NOTE_BYTES &&
                    old(Reachable(session.value.vault, p) && OtherText(session.value.vault, p, expected)) ==>
                      r == SaveFailed(if recovering then Stale else Core(StaleRevision)) && snapshots == old(snapshots) &&
                      v.root == old(session.value.vault.root))
    {
      NoteNames(Leaf(p));
      if !NoteExtension(Leaf(p)) { return SaveFailed(InvalidPath); }
      if |text| > MAX_NOTE_BYTES { return SaveFailed(ResourceLimit); }
      if !expected.Valid() { return SaveFailed(BadRevision); }
      if session.None? { return SaveFailed(NoSession); }
      if session.value.id != id { return SaveFailed(StaleSession); }
      var v := session.value.vault;
      if recovering {
        var read := ReadExpected(v, p, expected);
        if read.Err? { return SaveFailed(read.error); }
        var kept := PublishSnapshot(v, session.value.vaultId, p, read.value);
        if !kept { return SaveFailed(RecoveryUnavailable); }
      }
      var replaced := ReplaceContent(v, p, expected, text, MAX_NOTE_BYTES, tempName);
      match replaced {
        case Done(durability) => return SavedNote(Revision(v.hash, text), durability);
        case Failed(e) => return SaveFailed(Core(e));
        case Stopped => return SaveStopped;
      }
    }
  }

  ghost function OldBytes(s: State, p: Path): Bytes {
    if At(s.root, p).IsFile? && At(s.root, p).obj in s.objects then s.objects[At(s.root, p).obj].bytes else []
  }

  /** The arguments of a save are in order. */
  ghost predicate AcceptableSave(p: Path, text: Bytes, expected: FileRevision)
    requires p != []
  {
    IsNote(p[|p| - 1]) && |text| <= MAX_NOTE_BYTES && expected.Valid()
  }

  /** Nothing stands in the way of the note. */
  ghost predicate Reachable(v: Vault, p: Path)
    reads v
    requires p != []
  {
    Classify(v.naming, p) == Content && At(v.root, Parent(p)) == IsDir && Clear(v.naming, v.root, p)
  }

  /** The note is a readable single-link file with another text than expected. */
  ghost predicate OtherText(v: Vault, p: Path, expected: FileRevision)
    reads v
  {
    v.Stale(p, expected, MAX_NOTE_BYTES) && v.objects[At(v.root, p).obj].links == 1
  }

  /** What a save needs of the note and of its own arguments. */
  ghost predicate Savable(v: Vault, p: Path, text: Bytes, expected: FileRevision, tempName: string)
    reads v
    requires p != []
  {
    && IsNote(Leaf(p)) && Classify(v.naming, p) == Content && |text| <= MAX_NOTE_BYTES
    && expected.Valid() && expected.byteLen <= MAX_NOTE_BYTES && Revision(v.hash, text).Valid()
    && At(v.root, Parent(p)) == IsDir && Clear(v.naming, v.root, p) && Exact(v.hash, v.View(), p, expected)
    && At(v.root, Parent(p) + [tempName]) == Absent
  }
}
