// crates/myvault-core/src/vault.rs: the calls of the Trash store. Each follows the code step
// by step; its contract says which step of the protocol it may have taken, that it reports
// honestly, and what it returns when nothing fails.

module TrashCalls {
  import opened Wrappers
  import opened Tree
  import opened Paths
  import opened Disk
  import opened VaultCore
  import opened Mutations
  import opened TrashProtocol

  datatype PayloadPresence = Required | Optional | MustBeAbsent

  datatype PrepareManifestOutcome = Prepared | AlreadyPrepared | PreparedAlreadyPublished

  datatype StagePayloadOutcome =
    | Staged(durability: MoveDurability)
    | AlreadyStaged(durability: MoveDurability)
    | StageAlreadyPublished(durability: MoveDurability)

  datatype PublishItemOutcome = Publish(durability: MoveDurability) | AlreadyPublished(durability: MoveDurability)

  datatype RestoreItemOutcome = Restored(durability: MoveDurability) | AlreadyRestored(durability: MoveDurability)

  // ----- Item directories

  function ReservedIn(r: Rules, names: set<string>): set<string> {
    set x | x in names && r.reserved(x)
  }

  function TempNames(r: Rules, root: Node, a: TrashArea, id: string): set<string> {
    ReservedIn(r, Names(root, ItemDir(a, id)))
  }

  lemma ReservedStep(r: Rules, seen: set<string>, names: set<string>, name: string)
    requires seen <= names && name in names && name !in seen
    ensures |ReservedIn(r, seen + {name})| == |ReservedIn(r, seen)| + (if r.reserved(name) then 1 else 0)
    ensures |ReservedIn(r, seen + {name})| <= |ReservedIn(r, names)|
  {
    assert ReservedIn(r, seen + {name}) == ReservedIn(r, seen) + (if r.reserved(name) then {name} else {});
    SubsetSize(ReservedIn(r, seen + {name}), ReservedIn(r, names));
  }

  ghost predicate TempOk(s: State, p: Path) {
    && At(s.root, p).IsFile? && At(s.root, p).obj in s.objects
    && s.objects[At(s.root, p).obj].links == 1 && |s.objects[At(s.root, p).obj].bytes| <= MAX_TRASH_MANIFEST_BYTES
  }

  datatype ItemName = ManifestName | PayloadName | TempName

  ghost predicate NameOk(r: Rules, s: State, a: TrashArea, id: string, x: string) {
    x == "manifest.json" || x == "payload" || (r.reserved(x) && TempOk(s, ItemPath(a, id, x)))
  }

  /** The directory holds nothing but a manifest, a payload and at most 32 sound temporaries. */
  ghost predicate ItemShape(r: Rules, s: State, a: TrashArea, id: string) {
    && At(s.root, ItemDir(a, id)) == IsDir
    && (forall x :: At(s.root, ItemPath(a, id, x)) != Absent ==> NameOk(r, s, a, id, x))
    && |TempNames(r, s.root, a, id)| <= MAX_RESERVED_MANIFEST_TEMPS
  }

  ghost predicate PresenceOk(present: bool, presence: PayloadPresence) {
    (presence == Required ==> present) && (presence == MustBeAbsent ==> !present)
  }

  /** What the store asks of every manifest it reads: the only version, its own two ids, a content
      path in canonical form, and a revision of a payload that may be trashed. */
  ghost predicate Admissible(r: Rules, id: string, m: Manifest) {
    && m.version == 1 && m.trashId == id && id != "00000000-0000-0000-0000-000000000000" && m.operationId != "00000000-0000-0000-0000-000000000000"
    && m.original != [] && r.naming.key(m.original[0]) != ".trash" && r.naming.key(m.original[0]) != ".obsidian"
    && (forall c :: c in m.original ==> c != "" && c != "." && c != ".." && '/' !in c && r.naming.portable(c))
    && m.revision.Valid() && m.revision.byteLen <= 64 * 1024 * 1024 && 0 <= m.trashedAtUnixMs
  }

  /** `validate_item_contents` accepts the directory with manifest `m`. */
  ghost predicate ItemValid(r: Rules, s: State, a: TrashArea, id: string, digest: string, presence: PayloadPresence, m: Manifest) {
    && ItemShape(r, s, a, id) && r.Bound(s, a, id, m) && r.digest(r.encode(m)) == digest
    && PresenceOk(At(s.root, Payload(a, id)) != Absent, presence)
    && (At(s.root, Payload(a, id)) != Absent ==> Exact(r.hash, s, Payload(a, id), m.revision))
  }

  lemma ItemNames(root: Node, a: TrashArea, id: string)
    ensures forall x :: x in Names(root, ItemDir(a, id)) <==> At(root, ItemPath(a, id, x)) != Absent
  {
    NamesAt(root, ItemDir(a, id));
    assert forall x :: ItemDir(a, id) + [x] == ItemPath(a, id, x);
  }

  /** Two directories with the same temporaries and nothing foreign have the same shape. */
  lemma SameShape(r: Rules, pre: State, post: State, a: TrashArea, b: TrashArea, id: string)
    requires r.Lawful() && ItemShape(r, pre, a, id) && post.objects == pre.objects && At(post.root, ItemDir(b, id)) == IsDir
    requires forall x :: x != "payload" ==> At(post.root, ItemPath(b, id, x)) == At(pre.root, ItemPath(a, id, x))
    ensures ItemShape(r, post, b, id)
  {
    ItemNames(pre.root, a, id);
    ItemNames(post.root, b, id);
    assert TempNames(r, post.root, b, id) == TempNames(r, pre.root, a, id);
  }

  lemma StagedValid(r: Rules, pre: State, id: string, digest: string, m: Manifest)
    requires r.Lawful() && ItemValid(r, pre, Staging, id, digest, MustBeAbsent, m) && Exact(r.hash, pre, m.original, m.revision)
    requires CanRename(pre.root, m.original, Payload(Staging, id))
    ensures var post := pre.(root := Rename(pre.root, m.original, Payload(Staging, id)));
            && ItemValid(r, post, Staging, id, digest, Required, m) && At(post.root, m.original) == Absent
            && (forall j :: At(post.root, ItemDir(Items, j)) == At(pre.root, ItemDir(Items, j)))
            && StageStep(r, pre, post, id, m)
  {
    var post := pre.(root := Rename(pre.root, m.original, Payload(Staging, id)));
    ItemPathsApart();
    ContentOutside(r.naming, m.original);
    RenameFile(pre.root, m.original, Payload(Staging, id));
    assert InTrash(Payload(Staging, id));
    forall x ensures InTrash(ItemPath(Staging, id, x)) {}
    assert InTrash(ItemDir(Staging, id)) && |ItemDir(Staging, id)| == 4;
    forall j ensures InTrash(ItemDir(Items, j)) && |ItemDir(Items, j)| == 4 {}
    SameShape(r, pre, post, Staging, Staging, id);
    assert "manifest.json"[0] != "payload"[0];
  }

  lemma RestoredValid(r: Rules, pre: State, id: string, digest: string, m: Manifest)
    requires r.Lawful() && ItemValid(r, pre, Items, id, digest, Required, m)
    requires CanRename(pre.root, Payload(Items, id), m.original)
    ensures var post := pre.(root := Rename(pre.root, Payload(Items, id), m.original));
            && ItemValid(r, post, Items, id, digest, MustBeAbsent, m) && Exact(r.hash, post, m.original, m.revision)
            && RestoreStep(r, pre, post, id, m)
  {
    var post := pre.(root := Rename(pre.root, Payload(Items, id), m.original));
    ItemPathsApart();
    ContentOutside(r.naming, m.original);
    RenameFile(pre.root, Payload(Items, id), m.original);
    assert InTrash(Payload(Items, id));
    forall x ensures InTrash(ItemPath(Items, id, x)) {}
    assert InTrash(ItemDir(Items, id)) && |ItemDir(Items, id)| == 4;
    SameShape(r, pre, post, Items, Items, id);
    assert "manifest.json"[0] != "payload"[0];
  }

  lemma PublishedValid(r: Rules, pre: State, id: string, digest: string, m: Manifest)
    requires r.Lawful() && ItemValid(r, pre, Staging, id, digest, Required, m)
    requires CanRename(pre.root, ItemDir(Staging, id), ItemDir(Items, id))
    ensures var post := pre.(root := Rename(pre.root, ItemDir(Staging, id), ItemDir(Items, id)));
            && ItemValid(r, post, Items, id, digest, Required, m) && At(post.root, ItemDir(Staging, id)) == Absent
            && PublishStep(r, pre, post, id, m)
  {
    var post := pre.(root := Rename(pre.root, ItemDir(Staging, id), ItemDir(Items, id)));
    assert PublishStep(r, pre, post, id, m);
    PublishAt(r, pre, post, id, m);
    SameShape(r, pre, post, Staging, Items, id);
  }

  /** Classifies one name of an item directory; a temporary must be a bounded regular file with
      one link. */
  method ScanName(r: Rules, s: State, a: TrashArea, id: string, name: string) returns (k: Option<ItemName>)
    requires !r.reserved("manifest.json") && !r.reserved("payload")
    ensures k.Some? <==> NameOk(r, s, a, id, name)
    ensures k.Some? ==> (k.value == ManifestName <==> name == "manifest.json") && (k.value == PayloadName <==> name == "payload") &&
                        (k.value == TempName <==> r.reserved(name))
  {
    if name == "manifest.json" { return Some(ManifestName); }
    if name == "payload" { return Some(PayloadName); }
    if !r.reserved(name) { return None; }
    var e := At(s.root, ItemPath(a, id, name));
    if !e.IsFile? || e.obj !in s.objects { return None; }
    if s.objects[e.obj].links != 1 || |s.objects[e.obj].bytes| > MAX_TRASH_MANIFEST_BYTES { return None; }
    return Some(TempName);
  }

  /** The loop over the names, with its bound on temporaries; tells whether a manifest and a
      payload were seen. */
  method ScanNames(r: Rules, s: State, a: TrashArea, id: string, names: set<string>) returns (found: Option<(bool, bool)>)
    requires !r.reserved("manifest.json") && !r.reserved("payload")
    ensures found.Some? <==> (forall x :: x in names ==> NameOk(r, s, a, id, x)) && |ReservedIn(r, names)| <= MAX_RESERVED_MANIFEST_TEMPS
    ensures found.Some? ==> found.value == ("manifest.json" in names, "payload" in names)
  {
    var todo := names;
    ghost var seen: set<string> := {};
    var manifestSeen, payloadSeen, temps := false, false, 0;
    while todo != {}
      invariant forall x :: x in names <==> x in seen || x in todo
      invariant forall x :: x in seen ==> x !in todo && NameOk(r, s, a, id, x)
      invariant manifestSeen <==> "manifest.json" in seen
      invariant payloadSeen <==> "payload" in seen
      invariant temps == |ReservedIn(r, seen)| <= MAX_RESERVED_MANIFEST_TEMPS
      decreases |todo|
    {
      var name :| name in todo;
      ReservedStep(r, seen, names, name);
      var kind := ScanName(r, s, a, id, name);
      if kind.None? { return None; }
      match kind.value {
        case ManifestName => manifestSeen := true;
        case PayloadName => payloadSeen := true;
        case TempName =>
          temps := temps + 1;
          if temps > MAX_RESERVED_MANIFEST_TEMPS { return None; }
      }
      todo := todo - {name};
      seen := seen + {name};
    }
    assert seen == names;
    return Some((manifestSeen, payloadSeen));
  }

  class TrashStore {
    const vault: Vault
    const rules: Rules

    constructor (vault: Vault, rules: Rules)
      ensures this.vault == vault && this.rules == rules
    {
      this.vault := vault;
      this.rules := rules;
    }

    ghost predicate Valid()
      reads this, vault`root, vault`objects, vault`next
    {
      vault.Valid() && rules.Lawful() && rules.naming == vault.naming && rules.hash == vault.hash
    }

    /** Reads a bounded, canonical, single-link manifest. */
    method ReadManifest(a: TrashArea, id: string) returns (r: Result<Manifest, Error>)
      requires Valid()
      ensures r.Ok? ==> rules.Bound(vault.View(), a, id, r.value) && Admissible(rules, id, r.value)
      ensures r.Err? && r.error != Io ==> forall m :: !rules.Bound(vault.View(), a, id, m)
      ensures vault.calm && (exists m :: rules.Bound(vault.View(), a, id, m)) ==> r.Ok?
      ensures vault.calm && r.Err? && At(vault.root, ManifestPath(a, id)) != Absent ==>
                r.error == InvalidTrashManifest || r.error == NonCanonicalTrashManifest || r.error == ResourceLimitExceeded
    {
      var bad := vault.Fault();
      if bad { return Err(Io); }
      match At(vault.root, ManifestPath(a, id)) {
        case Absent => return Err(NotFound);
        case IsDir => return Err(InvalidTrashManifest);
        case IsSymlink => return Err(InvalidTrashManifest);
        case IsSpecial => return Err(InvalidTrashManifest);
        case IsFile(o) =>
          var f := vault.objects[o];
          if |f.bytes| > MAX_TRASH_MANIFEST_BYTES { return Err(ResourceLimitExceeded); }
          if f.links != 1 { return Err(InvalidTrashManifest); }
          var decoded := rules.decode(f.bytes);
          if decoded.None? || !rules.ValidManifest(decoded.value, id) { return Err(InvalidTrashManifest); }
          if rules.encode(decoded.value) != f.bytes { return Err(NonCanonicalTrashManifest); }
          return Ok(decoded.value);
      }
    }

    /** Scans the names of an item directory. */
    method ScanItem(a: TrashArea, id: string) returns (r: Result<(bool, bool), Error>)
      requires Valid()
      ensures r.Ok? ==> ItemShape(rules, vault.View(), a, id) &&
                        r.value == (At(vault.root, ManifestPath(a, id)) != Absent, At(vault.root, Payload(a, id)) != Absent)
      ensures vault.calm && ItemShape(rules, vault.View(), a, id) ==> r.Ok?
      ensures r.Err? && r.error != Io ==> !ItemShape(rules, vault.View(), a, id)
      ensures vault.calm && r.Err? && At(vault.root, ItemDir(a, id)) == IsDir ==> r.error == InvalidTrashTopology
    {
      var bad := vault.Fault();
      if bad || At(vault.root, ItemDir(a, id)) != IsDir { return Err(Io); }
      ItemNames(vault.root, a, id);
      var scan := ScanNames(rules, State(vault.root, vault.objects), a, id, Names(vault.root, ItemDir(a, id)));
      return if scan.None? then Err(InvalidTrashTopology) else Ok(scan.value);
    }

    method ValidateItem(a: TrashArea, id: string, digest: string, presence: PayloadPresence) returns (r: Result<Manifest, Error>)
      requires Valid()
      ensures r.Ok? ==> ItemValid(rules, vault.View(), a, id, digest, presence, r.value)
      ensures vault.calm && (exists m :: ItemValid(rules, vault.View(), a, id, digest, presence, m)) ==> r.Ok?
    {
      var scan := ScanItem(a, id);
      if scan.Err? { return Err(scan.error); }
      if !scan.value.0 { return Err(InvalidTrashTopology); }
      if presence == Required && !scan.value.1 { return Err(InvalidTrashTopology); }
      if presence == MustBeAbsent && scan.value.1 { return Err(InvalidTrashTopology); }
      r := ReadManifest(a, id);
      if r.Err? { return; }
      if rules.digest(rules.encode(r.value)) != digest { return Err(TrashManifestDigestMismatch); }
      if scan.value.1 {
        var c := vault.VerifyEntry(Payload(a, id), r.value.revision);
        if c.Err? { return Err(c.error); }
      }
    }

    // ----- Stage

    /** `finish_stage_confirmation`: the payload is in `area` only and the source is gone. */
    method FinishStage(area: TrashArea, id: string, source: Path, digest: string, container: MoveDurability,
                       report: MoveSyncReport, already: bool) returns (r: Outcome<StagePayloadOutcome>)
      requires Valid() && source != [] && (area == Items ==> already)
      ensures r == Failed(VerifiedMoveOutcomeUnknown) ||
              (StageDone(rules, vault.View(), area, id, source, digest) && !report.HasFailure() &&
               r == Done(StageResult(area, already, container.Combine(report.IntoResult().value))))
      ensures vault.calm && !report.HasFailure() && StageDone(rules, vault.View(), area, id, source, digest) &&
              At(vault.root, Parent(source)) == IsDir && Clear(vault.naming, vault.root, Parent(source))
              ==> r.Done?
    {
      var c := vault.OpenParentChecked(source);
      if c.Err? { return Failed(VerifiedMoveOutcomeUnknown); }
      var e := vault.EntryExists(source);
      if e.Err? || e.value { return Failed(VerifiedMoveOutcomeUnknown); }
      e := vault.EntryExists(ItemDir(Other(area), id));
      if e.Err? || e.value { return Failed(VerifiedMoveOutcomeUnknown); }
      var v := ValidateItem(area, id, digest, Required);
      if v.Err? || v.value.original != source || report.HasFailure() { return Failed(VerifiedMoveOutcomeUnknown); }
      return Done(StageResult(area, already, container.Combine(report.IntoResult().value)));
    }

    /** `stage_payload_with_hooks`. `container` is the round that flushed the containers, if it
        came to that; `log` holds the rounds on the two endpoints. */
    method StagePayload(id: string, source: Path, digest: string)
      returns (r: Outcome<StagePayloadOutcome>, container: Option<MoveSyncReport>, log: MoveLog)
      requires Valid() && source != []
      modifies vault`root, vault`steps
      ensures Valid()
      ensures StageEffect(rules, old(vault.View()), vault.View(), id, source, digest, r)
      ensures Logged(log, old(vault.root), vault.root) && log.Cautious()
      ensures vault.steps == log.Steps(MaybeSteps(old(vault.steps), container, ItemDir(Staging, id), ItemDir(Items, id)),
                                       source, old(StageTarget(vault.root, id)))
      ensures r.Done? || vault.root != old(vault.root) ==> old(AreasOpen(vault.naming, vault.root))
      ensures r.Done? ==> container.Some? && !container.value.HasFailure() &&
                          Reported(log, container.value.IntoResult().value, r.value.durability)
      // With no failure: a prepared item is staged, a staged or published one is recognised.
      ensures vault.calm && Classify(vault.naming, source) == Content && old(WaysClear(vault.naming, vault.root, id, source)) ==>
                StageDecided(rules, old(vault.View()), id, source, digest, FullySynced, r)
    {
      log := MoveLog(None, false, None, None);
      container := None;
      forall e {
        StageNothing(rules, vault.View(), id, source, digest, e);
      }
      if Classify(vault.naming, source) != Content {
        r := Failed(InvalidMove);
      } else {
        ghost var clear := WaysClear(vault.naming, vault.root, id, source);
        var topology;
        topology, container := ObserveAreas(id, source, clear);
        assert vault.calm && clear ==> topology.Ok? && container.value.IntoResult().value == FullySynced;
        if topology.Err? {
          r := Failed(topology.error);
        } else {
          r, log := DecideStage(id, source, digest, topology.value, container.value.IntoResult().value, clear);
        }
      }
    }

    /** What follows from the containers that know the id. */
    method DecideStage(id: string, source: Path, digest: string, topology: (bool, bool), container: MoveDurability, ghost clear: bool)
      returns (r: Outcome<StagePayloadOutcome>, log: MoveLog)
      requires Valid() && source != [] && Classify(vault.naming, source) == Content
      requires topology == (At(vault.root, ItemDir(Staging, id)) != Absent, At(vault.root, ItemDir(Items, id)) != Absent)
      requires At(vault.root, Parent(source)) == IsDir && Clear(vault.naming, vault.root, Parent(source))
      requires clear ==> WaysClear(vault.naming, vault.root, id, source)
      modifies vault`root, vault`steps
      ensures Valid()
      ensures StageEffect(rules, old(vault.View()), vault.View(), id, source, digest, r)
      ensures Logged(log, old(vault.root), vault.root) && log.Cautious()
      ensures vault.steps == log.Steps(old(vault.steps), source, old(StageTarget(vault.root, id)))
      ensures r.Done? ==> Reported(log, container, r.value.durability)
      ensures vault.calm && clear && container == FullySynced ==> StageDecided(rules, old(vault.View()), id, source, digest, FullySynced, r)
    {
      log := MoveLog(None, false, None, None);
      match topology {
        case (true, true) => r := Failed(InvalidTrashTopology);
        case (false, false) => r := Failed(InvalidTrashTopology);
        case (true, false) => r, log := StageFromStaging(id, source, digest, container, clear);
        case (false, true) =>
          var report;
          r, report := ConfirmPublishedStage(id, source, digest, container);
          log := log.(classified := Some(report));
      }
    }

    /** Opens the source parent and both containers, flushes the containers and tells in which
        of them the id has a directory. */
    method ObserveAreas(id: string, source: Path, ghost clear: bool) returns (r: Result<(bool, bool), Error>, container: Option<MoveSyncReport>)
      requires Valid() && source != [] && (clear ==> WaysClear(vault.naming, vault.root, id, source))
      modifies vault`steps
      ensures vault.steps == MaybeSteps(old(vault.steps), container, ItemDir(Staging, id), ItemDir(Items, id))
      ensures r.Ok? ==> && At(vault.root, Parent(source)) == IsDir && Clear(vault.naming, vault.root, Parent(source))
                        && container.Some? && !container.value.HasFailure() && AreasOpen(vault.naming, vault.root)
                        && r.value == (At(vault.root, ItemDir(Staging, id)) != Absent, At(vault.root, ItemDir(Items, id)) != Absent)
      ensures vault.calm && clear ==> r.Ok? && container.value.IntoResult() == Ok(FullySynced)
    {
      container := None;
      var c := OpenAreas(id, source);
      if c.Err? { return Err(c.error), container; }
      var round := vault.SyncParents(ItemDir(Staging, id), ItemDir(Items, id));
      container := Some(round);
      if round.HasFailure() { return Err(VerifiedMoveOutcomeUnknown), container; }
      r := ObserveItem(id);
    }

    method OpenAreas(id: string, source: Path) returns (r: Result<(), Error>)
      requires Valid() && source != []
      ensures r.Ok? ==> At(vault.root, Parent(source)) == IsDir && Clear(vault.naming, vault.root, Parent(source)) &&
                        AreasOpen(vault.naming, vault.root)
      ensures vault.calm && WaysClear(vault.naming, vault.root, id, source) ==> r.Ok?
    {
      assert Parent(ItemDir(Staging, id)) == AreaPath(Staging) && Parent(ItemDir(Items, id)) == AreaPath(Items);
      if WaysClear(vault.naming, vault.root, id, source) {
        ClearParent(vault.naming, vault.root, source);
      }
      r := vault.OpenParentChecked(source);
      if r.Err? { return; }
      r := vault.OpenParentChecked(ItemDir(Staging, id));
      if r.Err? { return; }
      r := vault.OpenParentChecked(ItemDir(Items, id));
    }

    /** In which of the two containers the id has a directory. */
    method ObserveItem(id: string) returns (r: Result<(bool, bool), Error>)
      ensures r.Ok? ==> r.value == (At(vault.root, ItemDir(Staging, id)) != Absent, At(vault.root, ItemDir(Items, id)) != Absent)
      ensures vault.calm ==> r.Ok?
    {
      var staging := vault.EntryExists(ItemDir(Staging, id));
      if staging.Err? { return Err(staging.error); }
      var items := vault.EntryExists(ItemDir(Items, id));
      if items.Err? { return Err(items.error); }
      return Ok((staging.value, items.value));
    }

    /** `confirm_already_published_stage` */
    method ConfirmPublishedStage(id: string, source: Path, digest: string, container: MoveDurability)
      returns (r: Outcome<StagePayloadOutcome>, report: MoveSyncReport)
      requires Valid() && source != [] && Classify(vault.naming, source) == Content
      requires At(vault.root, Parent(source)) == IsDir && Clear(vault.naming, vault.root, Parent(source))
      modifies vault`steps
      ensures vault.steps == RoundSteps(old(vault.steps), report, source, Payload(Items, id))
      ensures r.Done? ==> StageDone(rules, vault.View(), Items, id, source, digest) && !report.HasFailure() &&
                          r.value == StageAlreadyPublished(container.Combine(report.IntoResult().value))
      ensures vault.calm && StageDone(rules, vault.View(), Items, id, source, digest) ==> r == Done(StageAlreadyPublished(container))
      ensures vault.calm && At(vault.root, source) != Absent ==> r == Failed(InvalidTrashTopology)
      ensures report.source.Some?
    {
      ParentsApart(vault.naming, source, Payload(Items, id));
      report := vault.SyncParents(source, Payload(Items, id));
      var e := vault.EntryExists(source);
      if e.Err? { return Failed(VerifiedMoveOutcomeUnknown), report; }
      if e.value { return Failed(InvalidTrashTopology), report; }
      r := FinishStage(Items, id, source, digest, container, report, true);
    }

    /** Flushes both endpoints and tells whether the source and the staging payload exist. */
    method ObserveStaging(id: string, source: Path) returns (r: Result<(bool, bool), Error>, report: MoveSyncReport)
      requires Valid() && source != [] && Classify(vault.naming, source) == Content
      modifies vault`steps
      ensures vault.steps == RoundSteps(old(vault.steps), report, source, Payload(Staging, id))
      ensures report.source.Some?
      ensures r.Ok? ==> r.value == (At(vault.root, source) != Absent, At(vault.root, Payload(Staging, id)) != Absent) &&
                        At(vault.root, ItemDir(Staging, id)) == IsDir
      ensures vault.calm ==> !report.HasFailure() && report.IntoResult() == Ok(FullySynced) &&
                             (At(vault.root, ItemDir(Staging, id)) == IsDir ==> r.Ok?)
    {
      ParentsApart(vault.naming, source, Payload(Staging, id));
      report := vault.SyncParents(source, Payload(Staging, id));
      var bad := vault.Fault();
      if bad || At(vault.root, ItemDir(Staging, id)) != IsDir { return Err(VerifiedMoveOutcomeUnknown), report; }
      var sourceExists := vault.EntryExists(source);
      var payloadExists := vault.EntryExists(Payload(Staging, id));
      if sourceExists.Err? || payloadExists.Err? { return Err(VerifiedMoveOutcomeUnknown), report; }
      return Ok((sourceExists.value, payloadExists.value)), report;
    }

    /** `stage_from_staging_directory` */
    method StageFromStaging(id: string, source: Path, digest: string, container: MoveDurability, ghost clear: bool)
      returns (r: Outcome<StagePayloadOutcome>, log: MoveLog)
      requires Valid() && source != [] && Classify(vault.naming, source) == Content && At(vault.root, ItemDir(Items, id)) == Absent
      requires At(vault.root, Parent(source)) == IsDir && Clear(vault.naming, vault.root, Parent(source))
      requires clear ==> WaysClear(vault.naming, vault.root, id, source)
      modifies vault`root, vault`steps
      ensures Valid()
      ensures vault.steps == log.Steps(old(vault.steps), source, Payload(Staging, id))
      ensures StageEffect(rules, old(vault.View()), vault.View(), id, source, digest, r)
      ensures Logged(log, old(vault.root), vault.root) && log.Cautious()
      ensures r.Done? ==> Reported(log, container, r.value.durability)
      ensures vault.calm && clear ==> StageExact(rules, old(vault.View()), id, source, digest, container, r)
    {
      var topology, endpoints := ObserveStaging(id, source);
      log := MoveLog(Some(endpoints), false, None, None);
      if topology.Err? { return Failed(topology.error), log; }
      match topology.value {
        case (true, true) => return Failed(AlreadyExists), log;
        case (false, false) =>
          var v := ValidateItem(Staging, id, digest, MustBeAbsent);
          if v.Err? { return Failed(v.error), log; }
          return Failed(if v.value.original != source then InvalidTrashManifest else InvalidTrashTopology), log;
        case (false, true) =>
          r := FinishStage(Staging, id, source, digest, container, endpoints, true);
        case (true, false) =>
          if endpoints.HasFailure() { return Failed(StagePayloadPrepublicationSyncFailed), log; }
          r, log := MovePayloadIn(id, source, digest, container, endpoints, clear);
      }
    }

    /** Verify the manifest and the source, rename, and confirm. */
    method MovePayloadIn(id: string, source: Path, digest: string, container: MoveDurability, endpoints: MoveSyncReport, ghost clear: bool)
      returns (r: Outcome<StagePayloadOutcome>, log: MoveLog)
      requires Valid() && source != [] && Classify(vault.naming, source) == Content && At(vault.root, ItemDir(Items, id)) == Absent
      requires At(vault.root, Parent(source)) == IsDir && Clear(vault.naming, vault.root, Parent(source))
      requires clear ==> WaysClear(vault.naming, vault.root, id, source)
      requires At(vault.root, source) != Absent && At(vault.root, Payload(Staging, id)) == Absent
      requires endpoints.source.Some? && !endpoints.HasFailure()
      modifies vault`root, vault`steps
      ensures Valid()
      ensures vault.steps == log.Later(old(vault.steps), source, Payload(Staging, id))
      ensures StageEffect(rules, old(vault.View()), vault.View(), id, source, digest, r)
      ensures Logged(log, old(vault.root), vault.root) && log.classified == Some(endpoints)
      ensures r.Done? ==> Reported(log, container, r.value.durability)
      ensures vault.calm && clear ==> StageExact(rules, old(vault.View()), id, source, digest, container, r)
    {
      log := MoveLog(Some(endpoints), false, None, None);
      var v := CheckStage(id, source, digest);
      if v.Err? {
        r := Failed(v.error);
      } else {
        r, log := RenamePayloadIn(id, source, digest, container, endpoints, clear, v.value);
      }
    }

    /** The rename of a payload that passed the checks, and what follows it. */
    method RenamePayloadIn(id: string, source: Path, digest: string, container: MoveDurability, endpoints: MoveSyncReport, ghost clear: bool,
                           ghost m: Manifest) returns (r: Outcome<StagePayloadOutcome>, log: MoveLog)
      requires Valid() && source != [] && Classify(vault.naming, source) == Content && At(vault.root, ItemDir(Items, id)) == Absent
      requires At(vault.root, Parent(source)) == IsDir && Clear(vault.naming, vault.root, Parent(source))
      requires clear ==> WaysClear(vault.naming, vault.root, id, source)
      requires endpoints.source.Some? && !endpoints.HasFailure()
      requires m.original == source && Exact(rules.hash, vault.View(), source, m.revision)
      requires ItemValid(rules, vault.View(), Staging, id, digest, MustBeAbsent, m)
      modifies vault`root, vault`steps
      ensures Valid()
      ensures vault.steps == log.Later(old(vault.steps), source, Payload(Staging, id))
      ensures vault.View() == old(vault.View()) || StageStep(rules, old(vault.View()), vault.View(), id, m)
      ensures vault.root != old(vault.root) ==> !r.Failed? || r.error == VerifiedMoveOutcomeUnknown
      ensures Logged(log, old(vault.root), vault.root) && log.classified == Some(endpoints)
      ensures r.Done? ==> r.value.Staged? && log.renamed && StageDone(rules, vault.View(), Staging, id, source, digest) &&
                          Reported(log, container, r.value.durability)
      ensures vault.calm && clear ==> r == Done(Staged(container))
    {
      log := MoveLog(Some(endpoints), false, None, None);
      var d := Payload(Staging, id);
      assert Parent(d) == ItemDir(Staging, id);
      ParentsApart(vault.naming, source, d);
      FileCanRename(vault.root, source, d);
      StagedValid(rules, vault.View(), id, digest, m);
      var before := vault.root;
      var moved := AtomicMoveLocked(vault, source, d);
      log := log.(renamed := vault.root != before);
      if !moved.Done? {
        r := if moved.Stopped? then Stopped else Failed(moved.error);
      } else {
        if Clear(vault.naming, before, d) {
          ClearAfterMove(vault.naming, before, source, d, Parent(source));
        }
        r, log := ConfirmStaged(id, source, digest, container, log.(first := Some(moved.value)));
      }
    }

    /** The checks right before the rename. */
    method CheckStage(id: string, source: Path, digest: string) returns (r: Result<Manifest, Error>)
      requires Valid() && source != []
      ensures r.Ok? ==> r.value.original == source && ItemValid(rules, vault.View(), Staging, id, digest, MustBeAbsent, r.value) &&
                        Exact(rules.hash, vault.View(), source, r.value.revision)
      ensures vault.calm && StageReady(rules, vault.View(), id, source, digest) ==> r.Ok?
    {
      r := ValidateItem(Staging, id, digest, MustBeAbsent);
      if r.Err? { return; }
      if r.value.original != source { return Err(InvalidTrashManifest); }
      var c := vault.VerifyEntry(source, r.value.revision);
      if c.Err? { return Err(c.error); }
    }

    /** After the rename: a failed round is repeated once, unless the staging directory cannot
        be reopened, and then only the source is flushed again. */
    method ConfirmStaged(id: string, source: Path, digest: string, container: MoveDurability, begun: MoveLog)
      returns (r: Outcome<StagePayloadOutcome>, log: MoveLog)
      requires Valid() && source != [] && begun.renamed && begun.InOrder(false) && begun.first.Some? && begun.second.None?
      requires Classify(vault.naming, source) == Content
      modifies vault`steps
      ensures vault.steps == MaybeSteps(old(vault.steps), log.second, source, Payload(Staging, id))
      ensures log == begun.(second := log.second) && log.InOrder(false)
      ensures r == Failed(VerifiedMoveOutcomeUnknown) ||
              (&& StageDone(rules, vault.View(), Staging, id, source, digest) && log.Last().Some? && !log.Last().value.HasFailure()
               && r == Done(Staged(container.Combine(log.Last().value.IntoResult().value))))
      // With the payload in place, a clean first round or else a clean second one is a success.
      ensures vault.calm && StageDone(rules, vault.View(), Staging, id, source, digest) &&
              At(vault.root, Parent(source)) == IsDir && Clear(vault.naming, vault.root, Parent(source))
              ==> r.Done? && (!begun.first.value.HasFailure() ==> log == begun)
    {
      log := begun;
      var last := begun.first.value;
      if last.HasFailure() {
        ParentsApart(vault.naming, source, Payload(Staging, id));
        var bad := vault.Fault();
        if bad {
          last := vault.SyncReached(source, Payload(Staging, id), true, false);
          return Failed(VerifiedMoveOutcomeUnknown), log.(second := Some(last));
        }
        last := vault.SyncParents(source, Payload(Staging, id));
        log := log.(second := Some(last));
      }
      r := FinishStage(Staging, id, source, digest, container, last, false);
    }

    // ----- Publish

    /** `confirm_published_item`, and the same check after a clean rename. */
    method ConfirmPublished(id: string, digest: string, report: MoveSyncReport, already: bool) returns (r: Outcome<PublishItemOutcome>)
      requires Valid()
      ensures r == Failed(VerifiedMoveOutcomeUnknown) ||
              (PublishDone(rules, vault.View(), id, digest) && !report.HasFailure() &&
               r == Done(if already then AlreadyPublished(report.IntoResult().value) else Publish(report.IntoResult().value)))
      ensures vault.calm && !report.HasFailure() && PublishDone(rules, vault.View(), id, digest) ==> r.Done?
    {
      var e := vault.EntryExists(ItemDir(Staging, id));
      if e.Err? || e.value { return Failed(VerifiedMoveOutcomeUnknown); }
      var v := ValidateItem(Items, id, digest, Required);
      if v.Err? || report.HasFailure() { return Failed(VerifiedMoveOutcomeUnknown); }
      var d := report.IntoResult().value;
      return Done(if already then AlreadyPublished(d) else Publish(d));
    }

    /** Opens and flushes both containers and tells in which of them the id has a directory. */
    method ObserveContainers(id: string) returns (r: Result<(bool, bool), Error>, report: Option<MoveSyncReport>)
      requires Valid()
      modifies vault`steps
      ensures vault.steps == MaybeSteps(old(vault.steps), report, ItemDir(Staging, id), ItemDir(Items, id))
      ensures report.Some? ==> report.value.source.Some?
      ensures r.Ok? ==> r.value == (At(vault.root, ItemDir(Staging, id)) != Absent, At(vault.root, ItemDir(Items, id)) != Absent) &&
                        AreasOpen(vault.naming, vault.root) && report.Some?
      ensures vault.calm && AreasClear(vault.naming, vault.root, id) ==>
                r.Ok? && !report.value.HasFailure() && report.value.IntoResult() == Ok(FullySynced)
    {
      assert Parent(ItemDir(Staging, id)) == AreaPath(Staging) && Parent(ItemDir(Items, id)) == AreaPath(Items);
      var c := vault.OpenParentChecked(ItemDir(Staging, id));
      if c.Err? { return Err(c.error), None; }
      c := vault.OpenParentChecked(ItemDir(Items, id));
      if c.Err? { return Err(c.error), None; }
      assert AreaPath(Staging)[2][0] != AreaPath(Items)[2][0];
      var round := vault.SyncParents(ItemDir(Staging, id), ItemDir(Items, id));
      var staging := vault.EntryExists(ItemDir(Staging, id));
      var items := vault.EntryExists(ItemDir(Items, id));
      if staging.Err? || items.Err? { return Err(VerifiedMoveOutcomeUnknown), Some(round); }
      return Ok((staging.value, items.value)), Some(round);
    }

    /** `publish_staging_item`. The first round does not have to succeed for the rename. */
    method PublishItem(id: string, digest: string) returns (r: Outcome<PublishItemOutcome>, log: MoveLog)
      requires Valid()
      modifies vault`root, vault`steps
      ensures Valid()
      ensures PublishEffect(rules, old(vault.View()), vault.View(), id, digest, r)
      ensures Logged(log, old(vault.root), vault.root)
      ensures vault.steps == log.Steps(old(vault.steps), ItemDir(Staging, id), ItemDir(Items, id))
      ensures r.Done? || vault.root != old(vault.root) ==> old(AreasOpen(vault.naming, vault.root))
      ensures r.Done? ==> Reported(log, FullySynced, r.value.durability)
      // With no failure: a complete staged item is published, a published one is recognised.
      ensures vault.calm && old(AreasClear(vault.naming, vault.root, id)) ==>
                PublishExact(rules, old(vault.View()), id, digest, r)
    {
      var topology, containers := ObserveContainers(id);
      log := MoveLog(containers, false, None, None);
      if topology.Err? { return Failed(topology.error), log; }
      match topology.value {
        case (false, true) => r := ConfirmPublished(id, digest, containers.value, true);
        case (true, true) => return Failed(InvalidTrashTopology), log;
        case (false, false) => return Failed(InvalidTrashTopology), log;
        case (true, false) => r, log := MoveItem(id, digest, containers.value);
      }
    }

    /** Validate the staged directory, rename it whole, and confirm. */
    method MoveItem(id: string, digest: string, containers: MoveSyncReport) returns (r: Outcome<PublishItemOutcome>, log: MoveLog)
      requires Valid() && At(vault.root, ItemDir(Items, id)) == Absent && At(vault.root, AreaPath(Items)) == IsDir
      requires containers.source.Some?
      modifies vault`root, vault`steps
      ensures Valid()
      ensures PublishEffect(rules, old(vault.View()), vault.View(), id, digest, r)
      ensures Logged(log, old(vault.root), vault.root) && log.classified == Some(containers)
      ensures vault.steps == log.Later(old(vault.steps), ItemDir(Staging, id), ItemDir(Items, id))
      ensures r.Done? ==> r.value.Publish? && Reported(log, FullySynced, r.value.durability)
      ensures vault.calm && old(AreasClear(vault.naming, vault.root, id) && PublishReady(rules, vault.View(), id, digest))
              ==> r == Done(Publish(FullySynced))
    {
      log := MoveLog(Some(containers), false, None, None);
      var v := ValidateItem(Staging, id, digest, Required);
      if v.Err? { return Failed(v.error), log; }
      ItemsRename(vault.root, id);
      assert Parent(ItemDir(Staging, id)) == AreaPath(Staging) && Parent(ItemDir(Items, id)) == AreaPath(Items);
      assert AreaPath(Staging)[2][0] != AreaPath(Items)[2][0];
      PublishedValid(rules, vault.View(), id, digest, v.value);
      var before := vault.root;
      var moved := AtomicMoveLocked(vault, ItemDir(Staging, id), ItemDir(Items, id));
      log := log.(renamed := vault.root != before);
      if !moved.Done? { return if moved.Stopped? then Stopped else Failed(moved.error), log; }
      r, log := SettlePublished(id, digest, log.(first := Some(moved.value)));
    }

    /** After the rename: a failed round is repeated once, then the result is confirmed. */
    method SettlePublished(id: string, digest: string, begun: MoveLog) returns (r: Outcome<PublishItemOutcome>, log: MoveLog)
      requires Valid() && begun.renamed && begun.InOrder(false) && begun.first.Some? && begun.second.None?
      modifies vault`steps
      ensures vault.steps == MaybeSteps(old(vault.steps), log.second, ItemDir(Staging, id), ItemDir(Items, id))
      ensures log == begun.(second := log.second) && log.InOrder(false)
      ensures r == Failed(VerifiedMoveOutcomeUnknown) ||
              (&& PublishDone(rules, vault.View(), id, digest) && log.Last().Some? && !log.Last().value.HasFailure()
               && r == Done(Publish(log.Last().value.IntoResult().value)))
      ensures vault.calm && PublishDone(rules, vault.View(), id, digest) ==> r.Done? && (!begun.first.value.HasFailure() ==> log == begun)
    {
      log := begun;
      var last := begun.first.value;
      if last.HasFailure() {
        assert Parent(ItemDir(Staging, id)) == AreaPath(Staging) && Parent(ItemDir(Items, id)) == AreaPath(Items);
        assert AreaPath(Staging)[2][0] != AreaPath(Items)[2][0];
        last := vault.SyncParents(ItemDir(Staging, id), ItemDir(Items, id));
        log := log.(second := Some(last));
      }
      r := ConfirmPublished(id, digest, last, false);
    }

    // ----- Restore

    /** `confirm_restored_item`: the payload is at its original path only and the manifest is
        still in the item directory. */
    method ConfirmRestored(id: string, destination: Path, digest: string, report: MoveSyncReport, already: bool)
      returns (r: Outcome<RestoreItemOutcome>)
      requires Valid()
      ensures r == Failed(VerifiedMoveOutcomeUnknown) ||
              (RestoreDone(rules, vault.View(), id, destination, digest) && !report.HasFailure() &&
               r == Done(if already then AlreadyRestored(report.IntoResult().value) else Restored(report.IntoResult().value)))
      ensures vault.calm && !report.HasFailure() && RestoreDone(rules, vault.View(), id, destination, digest) ==> r.Done?
    {
      var v := ValidateItem(Items, id, digest, MustBeAbsent);
      if v.Err? || v.value.original != destination { return Failed(VerifiedMoveOutcomeUnknown); }
      var c := vault.VerifyEntry(destination, v.value.revision);
      if c.Err? || report.HasFailure() { return Failed(VerifiedMoveOutcomeUnknown); }
      var d := report.IntoResult().value;
      return Done(if already then AlreadyRestored(d) else Restored(d));
    }

    /** Opens and flushes both endpoints and tells which of payload and destination exist. */
    method ObserveRestore(id: string, destination: Path, ghost clear: bool) returns (r: Result<(bool, bool), Error>, report: Option<MoveSyncReport>)
      requires Valid() && destination != [] && Classify(vault.naming, destination) == Content
      requires clear ==> RestoreClear(vault.naming, vault.root, id, destination)
      modifies vault`steps
      ensures vault.steps == MaybeSteps(old(vault.steps), report, Payload(Items, id), destination)
      ensures report.Some? ==> report.value.source.Some?
      ensures r.Ok? ==> r.value == (At(vault.root, Payload(Items, id)) != Absent, At(vault.root, destination) != Absent) &&
                        EndsOpen(vault.naming, vault.root, id, destination) && report.Some?
      ensures vault.calm && clear ==> r.Ok? && report.value.IntoResult() == Ok(FullySynced)
    {
      var c := OpenRestore(id, destination);
      if c.Err? { return Err(c.error), None; }
      ParentsApart(vault.naming, destination, Payload(Items, id));
      var round := vault.SyncParents(Payload(Items, id), destination);
      var payload := vault.EntryExists(Payload(Items, id));
      var present := vault.EntryExists(destination);
      if payload.Err? || present.Err? { return Err(VerifiedMoveOutcomeUnknown), Some(round); }
      return Ok((payload.value, present.value)), Some(round);
    }

    method OpenRestore(id: string, destination: Path) returns (r: Result<(), Error>)
      requires Valid() && destination != []
      ensures r.Ok? ==> EndsOpen(vault.naming, vault.root, id, destination)
      ensures vault.calm && RestoreClear(vault.naming, vault.root, id, destination) ==> r.Ok?
    {
      assert Parent(Payload(Items, id)) == ItemDir(Items, id) && Parent(ItemDir(Items, id)) == AreaPath(Items);
      if RestoreClear(vault.naming, vault.root, id, destination) {
        ClearParent(vault.naming, vault.root, destination);
        ClearParent(vault.naming, vault.root, ItemDir(Items, id));
        PrefixIsDir(vault.root, ItemDir(Items, id), 3);
        assert ItemDir(Items, id)[..3] == AreaPath(Items);
      }
      r := vault.OpenParentChecked(ItemDir(Items, id));
      if r.Err? { return; }
      r := vault.OpenParentChecked(Payload(Items, id));
      if r.Err? { return; }
      r := vault.OpenParentChecked(destination);
    }

    /** `restore_item_if_revision`. The first round does not have to succeed for the rename. */
    method RestoreItem(id: string, destination: Path, digest: string) returns (r: Outcome<RestoreItemOutcome>, log: MoveLog)
      requires Valid() && destination != []
      modifies vault`root, vault`steps
      ensures Valid()
      ensures RestoreEffect(rules, old(vault.View()), vault.View(), id, destination, digest, r)
      ensures Logged(log, old(vault.root), vault.root)
      ensures vault.steps == log.Steps(old(vault.steps), Payload(Items, id), destination)
      ensures r.Done? || vault.root != old(vault.root) ==> old(EndsOpen(vault.naming, vault.root, id, destination))
      ensures r.Done? ==> Reported(log, FullySynced, r.value.durability)
      // With no failure: a published item is restored, a restored one is recognised.
      ensures vault.calm && Classify(vault.naming, destination) == Content && old(RestoreClear(vault.naming, vault.root, id, destination)) ==>
                RestoreExact(rules, old(vault.View()), id, destination, digest, r)
    {
      log := MoveLog(None, false, None, None);
      if Classify(vault.naming, destination) != Content {
        r := Failed(InvalidMove);
      } else {
        ghost var clear := RestoreClear(vault.naming, vault.root, id, destination);
        var topology, endpoints := ObserveRestore(id, destination, clear);
        assert vault.calm && clear ==> topology.Ok? && endpoints.value.IntoResult() == Ok(FullySynced);
        log := log.(classified := endpoints);
        if topology.Err? {
          r := Failed(topology.error);
        } else {
          r, log := DecideRestore(id, destination, digest, topology.value, endpoints.value, clear);
        }
      }
    }

    /** What follows from the two ends that exist. */
    method DecideRestore(id: string, destination: Path, digest: string, topology: (bool, bool), endpoints: MoveSyncReport, ghost clear: bool)
      returns (r: Outcome<RestoreItemOutcome>, log: MoveLog)
      requires Valid() && destination != [] && Classify(vault.naming, destination) == Content && endpoints.source.Some?
      requires topology == (At(vault.root, Payload(Items, id)) != Absent, At(vault.root, destination) != Absent)
      requires At(vault.root, Parent(destination)) == IsDir && (clear ==> RestoreClear(vault.naming, vault.root, id, destination))
      modifies vault`root, vault`steps
      ensures Valid()
      ensures RestoreEffect(rules, old(vault.View()), vault.View(), id, destination, digest, r)
      ensures Logged(log, old(vault.root), vault.root) && log.classified == Some(endpoints)
      ensures vault.steps == log.Later(old(vault.steps), Payload(Items, id), destination)
      ensures r.Done? ==> Reported(log, FullySynced, r.value.durability)
      ensures vault.calm && clear && endpoints.IntoResult() == Ok(FullySynced) ==>
                RestoreExact(rules, old(vault.View()), id, destination, digest, r)
    {
      log := MoveLog(Some(endpoints), false, None, None);
      match topology {
        case (true, true) => r := Failed(AlreadyExists);
        case (false, false) => r := Failed(InvalidTrashTopology);
        case (false, true) => r := ConfirmRestored(id, destination, digest, endpoints, true);
        case (true, false) => r, log := MovePayloadOut(id, destination, digest, endpoints);
      }
    }

    /** The checks right before the rename. */
    method CheckRestore(id: string, destination: Path, digest: string) returns (r: Result<Manifest, Error>)
      requires Valid() && destination != []
      ensures r.Ok? ==> r.value.original == destination && ItemValid(rules, vault.View(), Items, id, digest, Required, r.value) &&
                        NoCollision(vault.naming, vault.root, Parent(destination), Leaf(destination))
      ensures vault.calm && RestoreClear(vault.naming, vault.root, id, destination) && RestoreReady(rules, vault.View(), id, destination, digest)
              ==> r.Ok?
    {
      r := ValidateItem(Items, id, digest, Required);
      if r.Err? { return; }
      if r.value.original != destination { return Err(InvalidTrashManifest); }
      if Clear(vault.naming, vault.root, destination) { ClearParent(vault.naming, vault.root, destination); }
      var c := vault.RejectSiblingCollision(Parent(destination), Leaf(destination));
      if c.Err? { return Err(c.error); }
      c := vault.VerifyEntry(Payload(Items, id), r.value.revision);
      if c.Err? { return Err(c.error); }
    }

    /** Validate the item, check the destination name, rename, and confirm. */
    method MovePayloadOut(id: string, destination: Path, digest: string, endpoints: MoveSyncReport)
      returns (r: Outcome<RestoreItemOutcome>, log: MoveLog)
      requires Valid() && destination != [] && Classify(vault.naming, destination) == Content && endpoints.source.Some?
      requires At(vault.root, destination) == Absent && At(vault.root, Parent(destination)) == IsDir
      modifies vault`root, vault`steps
      ensures Valid()
      ensures RestoreEffect(rules, old(vault.View()), vault.View(), id, destination, digest, r)
      ensures Logged(log, old(vault.root), vault.root) && log.classified == Some(endpoints)
      ensures vault.steps == log.Later(old(vault.steps), Payload(Items, id), destination)
      ensures r.Done? ==> r.value.Restored? && Reported(log, FullySynced, r.value.durability)
      ensures vault.calm && old(RestoreClear(vault.naming, vault.root, id, destination) && RestoreReady(rules, vault.View(), id, destination, digest))
              ==> r == Done(Restored(FullySynced))
    {
      log := MoveLog(Some(endpoints), false, None, None);
      var v := CheckRestore(id, destination, digest);
      if v.Err? { return Failed(v.error), log; }
      var s := Payload(Items, id);
      assert Parent(s) == ItemDir(Items, id);
      ParentsApart(vault.naming, destination, s);
      FileCanRename(vault.root, s, destination);
      RestoredValid(rules, vault.View(), id, digest, v.value);
      var before := vault.root;
      var moved := AtomicMoveLocked(vault, s, destination);
      log := log.(renamed := vault.root != before);
      if !moved.Done? { return if moved.Stopped? then Stopped else Failed(moved.error), log; }
      r, log := SettleRestored(id, destination, digest, log.(first := Some(moved.value)));
    }

    /** After the rename: a failed round is repeated once, then the result is confirmed. */
    method SettleRestored(id: string, destination: Path, digest: string, begun: MoveLog) returns (r: Outcome<RestoreItemOutcome>, log: MoveLog)
      requires Valid() && begun.renamed && begun.InOrder(false) && begun.first.Some? && begun.second.None?
      requires destination != [] && Classify(vault.naming, destination) == Content
      modifies vault`steps
      ensures vault.steps == MaybeSteps(old(vault.steps), log.second, Payload(Items, id), destination)
      ensures log == begun.(second := log.second) && log.InOrder(false)
      ensures r == Failed(VerifiedMoveOutcomeUnknown) ||
              (&& RestoreDone(rules, vault.View(), id, destination, digest) && log.Last().Some? && !log.Last().value.HasFailure()
               && r == Done(Restored(log.Last().value.IntoResult().value)))
      ensures vault.calm && RestoreDone(rules, vault.View(), id, destination, digest) ==>
                r.Done? && (!begun.first.value.HasFailure() ==> log == begun)
    {
      log := begun;
      var last := begun.first.value;
      if last.HasFailure() {
        last := ReflushRestored(id, destination);
        log := log.(second := Some(last));
      }
      r := ConfirmRestored(id, destination, digest, last, false);
    }

    /** The second round of a restore; an item directory that cannot be reopened counts as not
        flushed. */
    method ReflushRestored(id: string, destination: Path) returns (report: MoveSyncReport)
      requires Valid() && destination != [] && Classify(vault.naming, destination) == Content
      modifies vault`steps
      ensures vault.steps == RoundSteps(old(vault.steps), report, Payload(Items, id), destination)
      ensures report.source.Some? && (vault.calm ==> !report.HasFailure())
    {
      ParentsApart(vault.naming, destination, Payload(Items, id));
      var bad := vault.Fault();
      if bad {
        report := vault.SyncReached(Payload(Items, id), destination, false, true);
      } else {
        report := vault.SyncParents(Payload(Items, id), destination);
      }
    }

    // ----- Prepare

    /** Opens `.trash/v1/staging` and `.trash/v1/items`, creating what is missing. */
    method EnsureContainers() returns (r: Outcome<()>)
      requires Valid()
      modifies vault`root, vault`steps
      ensures Valid()
      ensures ContainersAdded(old(vault.root), vault.root)
      ensures r.Done? ==> At(vault.root, AreaPath(Staging)) == IsDir && At(vault.root, AreaPath(Items)) == IsDir
      ensures At(old(vault.root), AreaPath(Staging)) == IsDir && At(old(vault.root), AreaPath(Items)) == IsDir ==> vault.root == old(vault.root)
      ensures vault.calm && ContainersFree(vault.naming, old(vault.root)) ==> r.Done?
    {
      r := CreateDirectories(vault, AreaPath(Staging));
      ContainerDirs(old(vault.root), vault.root, Staging);
      if r.Done? {
        ghost var middle := vault.root;
        if ContainersFree(vault.naming, old(vault.root)) {
          ItemsStillFree(vault.naming, old(vault.root), middle);
        }
        r := CreateDirectories(vault, AreaPath(Items));
        ContainerDirs(middle, vault.root, Items);
      }
      if At(old(vault.root), AreaPath(Staging)) == IsDir && At(old(vault.root), AreaPath(Items)) == IsDir {
        ContainersThere(old(vault.root), vault.root);
      }
    }

    /** `confirm_existing_manifest` and `confirm_published_manifest`: flush, read back, compare,
        flush again. Only a manifest that was just renamed into place makes a failed read an
        unknown outcome. */
    method ConfirmManifest(id: string, m: Manifest, justPublished: bool) returns (r: Result<(), Error>)
      requires Valid() && rules.ValidManifest(m, id)
      modifies vault`steps
      ensures r.Ok? ==> ManifestFlushed(old(vault.steps), vault.steps, id)
      ensures r.Ok? ==> rules.Bound(vault.View(), Staging, id, m)
      ensures r.Err? && justPublished ==> r.error == TrashManifestOutcomeUnknown
      ensures vault.calm && rules.Bound(vault.View(), Staging, id, m) ==> r.Ok?
      ensures vault.calm && !justPublished && BoundToOther(rules, vault.View(), Staging, id, m) ==> r == Err(TrashManifestCollision)
    {
      var precheck := vault.Sync(ItemDir(Staging, id));
      if precheck.SyncFailed? { return Err(TrashManifestOutcomeUnknown); }
      var read := ReadManifest(Staging, id);
      if read.Err? { return Err(if justPublished then TrashManifestOutcomeUnknown else read.error); }
      if rules.encode(read.value) != rules.encode(m) {
        return Err(if justPublished then TrashManifestOutcomeUnknown else TrashManifestCollision);
      }
      assert rules.decode(rules.encode(m)) == Some(m) && rules.decode(rules.encode(read.value)) == Some(read.value);
      var file := vault.Sync(ManifestPath(Staging, id));
      if file.SyncFailed? { return Err(TrashManifestOutcomeUnknown); }
      var directory := vault.Sync(ItemDir(Staging, id));
      if directory.SyncFailed? { return Err(TrashManifestOutcomeUnknown); }
      assert vault.steps == FlushManifest(old(vault.steps), id, precheck.durability, file.durability, directory.durability);
      return Ok(());
    }

    method PrepareManifest(id: string, m: Manifest, temp: string) returns (r: Outcome<PrepareManifestOutcome>)
      requires Valid() && rules.reserved(temp)
      modifies vault`root, vault`objects, vault`next, vault`steps
      ensures Valid()
      ensures PrepareStep(rules, old(vault.View()), vault.View(), id, m, temp)
      ensures r.Done? ==> PreparedBy(vault.steps, id, r.value)
      ensures r.Done? ==> PrepareDone(rules, vault.View(), id, m, r.value) &&
                          At(vault.root, AreaPath(Staging)) == IsDir && At(vault.root, AreaPath(Items)) == IsDir
      // An id that has a directory is only looked at.
      ensures old(At(vault.root, AreaPath(Staging)) == IsDir && At(vault.root, AreaPath(Items)) == IsDir) &&
              old(At(vault.root, ItemDir(Staging, id)) != Absent || At(vault.root, ItemDir(Items, id)) != Absent)
              ==> vault.View() == old(vault.View())
      // A staging directory that was left without a manifest is never prepared again.
      ensures old(At(vault.root, ItemDir(Staging, id)) != Absent && At(vault.root, ManifestPath(Staging, id)) == Absent) ==> !r.Done?
      // With no failure the state of the two item directories decides.
      ensures vault.calm && PrepareRequestOk(rules, id, m) && old(ContainersFree(vault.naming, vault.root)) ==>
                PrepareExact(rules, old(vault.View()), id, m, r)
    {
      if !rules.ValidManifest(m, id) { return Failed(InvalidTrashManifest); }
      if |rules.encode(m)| > MAX_TRASH_MANIFEST_BYTES { return Failed(ResourceLimitExceeded); }
      var ready := EnsureContainers();
      ContainersSame(old(vault.root), vault.root, id);
      ghost var middle := vault.View();
      if !ready.Done? { return if ready.Stopped? then Stopped else Failed(ready.error); }
      r := PrepareItem(id, m, temp);
      ExactBehind(rules, old(vault.View()), middle, id, m, r);
      PrepareAfterContainers(rules, old(vault.View()), middle, vault.View(), id, m, temp);
    }

    /** Everything after the containers exist. */
    method PrepareItem(id: string, m: Manifest, temp: string) returns (r: Outcome<PrepareManifestOutcome>)
      requires Valid() && rules.reserved(temp) && PrepareRequestOk(rules, id, m) && At(vault.root, AreaPath(Staging)) == IsDir
      modifies vault`root, vault`objects, vault`next, vault`steps
      ensures Valid()
      ensures PrepareStep(rules, old(vault.View()), vault.View(), id, m, temp)
      ensures r.Done? ==> PreparedBy(vault.steps, id, r.value)
      ensures r.Done? ==> PrepareDone(rules, vault.View(), id, m, r.value)
      ensures old(At(vault.root, ItemDir(Staging, id)) != Absent || At(vault.root, ItemDir(Items, id)) != Absent) ==>
                vault.View() == old(vault.View())
      ensures old(At(vault.root, ItemDir(Staging, id)) != Absent && At(vault.root, ManifestPath(Staging, id)) == Absent) ==> !r.Done?
      ensures vault.calm ==> PrepareExact(rules, old(vault.View()), id, m, r)
    {
      BoundHasDirectory(rules, vault.View(), Staging, id, m);
      var topology := ObservePrepare(id);
      if topology.Err? { return Failed(topology.error); }
      match topology.value {
        case (true, true) => return Failed(InvalidTrashTopology);
        case (false, true) => r := ConfirmPrepared(Items, id, m);
        case (true, false) => r := ConfirmPrepared(Staging, id, m);
        case (false, false) => r := CreateStagingManifest(id, m, temp);
      }
    }

    method ObservePrepare(id: string) returns (r: Result<(bool, bool), Error>)
      modifies vault`steps
      ensures r.Ok? ==> exists a, b :: vault.steps == Then(Then(old(vault.steps), Flush(AreaPath(Items), Synced(a))), Flush(AreaPath(Staging), Synced(b)))
      ensures r.Ok? ==> r.value == (At(vault.root, ItemDir(Staging, id)) != Absent, At(vault.root, ItemDir(Items, id)) != Absent)
      ensures vault.calm ==> r.Ok?
    {
      var itemsFlushed := vault.Sync(AreaPath(Items));
      if itemsFlushed.SyncFailed? { return Err(Io); }
      var stagingFlushed := vault.Sync(AreaPath(Staging));
      if stagingFlushed.SyncFailed? { return Err(Io); }
      r := ObserveItem(id);
    }

    /** The two branches that find a directory of this id. */
    method ConfirmPrepared(a: TrashArea, id: string, m: Manifest) returns (r: Outcome<PrepareManifestOutcome>)
      requires Valid() && rules.ValidManifest(m, id) && At(vault.root, ItemDir(Other(a), id)) == Absent
      modifies vault`steps
      ensures r.Done? ==> PreparedBy(vault.steps, id, r.value)
      ensures r.Done? ==> r.value == AlreadyIn(a) && PrepareDone(rules, vault.View(), id, m, r.value)
      ensures vault.calm && PrepareDone(rules, vault.View(), id, m, AlreadyIn(a)) ==> r == Done(AlreadyIn(a))
      ensures vault.calm && a == Staging && BoundToOther(rules, vault.View(), Staging, id, m) ==> r == Failed(TrashManifestCollision)
    {
      if a == Staging {
        var c := ConfirmManifest(id, m, false);
        if c.Err? { return Failed(c.error); }
      } else {
        var s := vault.Sync(ItemDir(Items, id));
        if s.SyncFailed? { return Failed(TrashManifestOutcomeUnknown); }
        var stored := ReadManifest(Items, id);
        if stored.Err? { return Failed(stored.error); }
        var kept := ValidateItem(Items, id, rules.digest(rules.encode(stored.value)), Optional);
        if kept.Err? { return Failed(kept.error); }
        BoundUnique(rules, vault.View(), Items, id, kept.value, stored.value);
        if rules.encode(stored.value) != rules.encode(m) { return Failed(TrashManifestCollision); }
        assert rules.decode(rules.encode(m)) == Some(m) && rules.decode(rules.encode(stored.value)) == Some(stored.value);
        return Done(PreparedAlreadyPublished);
      }
      var v := ValidateItem(Staging, id, rules.digest(rules.encode(m)), Optional);
      if v.Err? { return Failed(v.error); }
      BoundUnique(rules, vault.View(), Staging, id, v.value, m);
      return Done(AlreadyPrepared);
    }

    /** A new staging directory, a temporary file, and the manifest renamed into place. */
    method CreateStagingManifest(id: string, m: Manifest, temp: string) returns (r: Outcome<PrepareManifestOutcome>)
      requires Valid() && rules.reserved(temp) && PrepareRequestOk(rules, id, m)
      requires At(vault.root, AreaPath(Staging)) == IsDir
      requires At(vault.root, ItemDir(Staging, id)) == Absent && At(vault.root, ItemDir(Items, id)) == Absent
      modifies vault`root, vault`objects, vault`next, vault`steps
      ensures Valid()
      ensures PrepareStep(rules, old(vault.View()), vault.View(), id, m, temp)
      ensures r.Done? ==> PreparedBy(vault.steps, id, r.value)
      ensures r.Done? ==> r.value == Prepared && PrepareDone(rules, vault.View(), id, m, Prepared)
      ensures vault.calm && old(NoCollision(vault.naming, vault.root, AreaPath(Staging), id)) ==> r == Done(Prepared)
    {
      var w := WriteStagingTemp(id, m, temp);
      if !w.Done? { return if w.Stopped? then Stopped else Failed(w.error); }
      r := PublishManifest(id, m, temp, w.value, old(vault.View()));
    }

    method WriteStagingTemp(id: string, m: Manifest, temp: string) returns (r: Outcome<nat>)
      requires Valid() && rules.reserved(temp) && At(vault.root, AreaPath(Staging)) == IsDir
      requires At(vault.root, ItemDir(Staging, id)) == Absent && At(vault.root, ItemDir(Items, id)) == Absent
      modifies vault`root, vault`objects, vault`next, vault`steps
      ensures Valid()
      ensures PrepareStep(rules, old(vault.View()), vault.View(), id, m, temp)
      ensures r.Done? ==> r.value !in old(vault.objects) && NewDirectory(rules, old(vault.View()), vault.View(), id, temp, r.value, m)
      ensures vault.calm && old(NoCollision(vault.naming, vault.root, AreaPath(Staging), id)) ==> r.Done?
    {
      var d := ItemDir(Staging, id);
      assert AreaPath(Staging) + [id] == d;
      NothingInside(vault.root, id);
      var made := EnsureChild(vault, AreaPath(Staging), id);
      PartialPrepare(rules, old(vault.View()), vault.View(), id, m, temp);
      if !made.Done? { return if made.Stopped? then Stopped else Failed(made.error); }
      assert Parent(ItemPath(Staging, id, temp)) == d && ItemPath(Staging, id, temp) != d;
      r := FillTemp(id, m, temp, old(vault.View()));
    }

    method FillTemp(id: string, m: Manifest, temp: string, ghost pre: State) returns (r: Outcome<nat>)
      requires Valid() && rules.reserved(temp) && At(pre.root, ItemDir(Items, id)) == Absent && vault.objects == pre.objects
      requires At(pre.root, ItemDir(Staging, id)) == Absent && Shows(pre.root, vault.root, ItemDir(Staging, id), IsDir)
      requires At(vault.root, ItemPath(Staging, id, temp)) == Absent
      modifies vault`root, vault`objects, vault`next, vault`steps
      ensures Valid()
      ensures PrepareStep(rules, pre, vault.View(), id, m, temp)
      ensures r.Done? ==> r.value !in pre.objects && NewDirectory(rules, pre, vault.View(), id, temp, r.value, m)
      ensures vault.calm ==> r.Done?
    {
      var p := ItemPath(Staging, id, temp);
      assert Parent(p) == ItemDir(Staging, id) && p != ItemDir(Staging, id);
      PartialPrepare(rules, pre, vault.View(), id, m, temp);
      var created := vault.CreateNew(p);
      if created.Err? { return Failed(created.error); }
      PartialPrepare(rules, pre, vault.View(), id, m, temp);
      var stop := vault.Fault();
      if stop { return Stopped; }
      r := WriteTemp(id, m, temp, created.value, pre);
    }

    /** Fills the new temporary file with the manifest. */
    method WriteTemp(id: string, m: Manifest, temp: string, o: nat, ghost pre: State) returns (r: Outcome<nat>)
      requires Valid() && rules.reserved(temp) && At(pre.root, ItemDir(Items, id)) == Absent && At(pre.root, ItemDir(Staging, id)) == Absent
      requires o !in pre.objects && vault.objects == pre.objects[o := FileObject([], 1)]
      requires forall q :: At(vault.root, q) == if q == ItemDir(Staging, id) then IsDir else if q == ItemPath(Staging, id, temp) then IsFile(o)
                                                else At(pre.root, q)
      modifies vault`objects
      ensures Valid()
      ensures PrepareStep(rules, pre, vault.View(), id, m, temp)
      ensures r.Done? ==> r.value !in pre.objects && NewDirectory(rules, pre, vault.View(), id, temp, r.value, m)
      ensures vault.calm ==> r.Done?
    {
      var c := vault.WriteAll(o, rules.encode(m));
      PartialPrepare(rules, pre, vault.View(), id, m, temp);
      if c.Err? { return Failed(c.error); }
      var stop := vault.Fault();
      if stop { return Stopped; }
      return Done(o);
    }

    method PublishManifest(id: string, m: Manifest, temp: string, o: nat, ghost pre: State) returns (r: Outcome<PrepareManifestOutcome>)
      requires Valid() && rules.reserved(temp) && PrepareRequestOk(rules, id, m) && o !in pre.objects
      requires At(pre.root, ItemDir(Staging, id)) == Absent && At(pre.root, ItemDir(Items, id)) == Absent
      requires NewDirectory(rules, pre, vault.View(), id, temp, o, m)
      modifies vault`root, vault`steps
      ensures Valid()
      ensures PrepareStep(rules, pre, vault.View(), id, m, temp)
      ensures r.Done? ==> PreparedBy(vault.steps, id, r.value)
      ensures r.Done? ==> r.value == Prepared && PrepareDone(rules, vault.View(), id, m, Prepared)
      ensures vault.calm ==> r == Done(Prepared)
    {
      var c := RenameManifest(id, m, temp, o, pre);
      if c.Err? { return Failed(c.error); }
      ghost var renamed := vault.steps;
      var stop := vault.Fault();
      if stop { return Stopped; }
      c := ConfirmManifest(id, m, true);
      if c.Err? { return Failed(c.error); }
      assert ManifestFlushed(renamed, vault.steps, id);
      return Done(Prepared);
    }

    method RenameManifest(id: string, m: Manifest, temp: string, o: nat, ghost pre: State) returns (r: Result<(), Error>)
      requires Valid() && rules.reserved(temp) && PrepareRequestOk(rules, id, m) && o !in pre.objects
      requires At(pre.root, ItemDir(Staging, id)) == Absent && At(pre.root, ItemDir(Items, id)) == Absent
      requires NewDirectory(rules, pre, vault.View(), id, temp, o, m)
      modifies vault`root, vault`steps
      ensures Valid()
      ensures PrepareStep(rules, pre, vault.View(), id, m, temp)
      ensures r.Ok? ==> PrepareDone(rules, vault.View(), id, m, Prepared)
      ensures r.Ok? ==> vault.steps == Then(old(vault.steps), Move(ItemPath(Staging, id, temp), ManifestPath(Staging, id)))
      ensures vault.calm ==> r.Ok?
    {
      var s, d := ItemPath(Staging, id, temp), ManifestPath(Staging, id);
      ItemPathsApart();
      NothingInside(pre.root, id);
      assert Parent(d) == ItemDir(Staging, id) && s != d;
      FileCanRename(vault.root, s, d);
      RenameFile(vault.root, s, d);
      r := vault.RenameNoReplace(s, d);
      ManifestSteps(rules, pre, vault.View(), id, m, temp);
    }
  }

  /** The item directory was flushed, then the manifest in it, then the directory again. */
  function FlushManifest(t: Trace, id: string, a: MoveDurability, b: MoveDurability, c: MoveDurability): Trace {
    Then(Then(Then(t, Flush(ItemDir(Staging, id), Synced(a))), Flush(ManifestPath(Staging, id), Synced(b))), Flush(ItemDir(Staging, id), Synced(c)))
  }

  ghost predicate ManifestFlushed(t: Trace, now: Trace, id: string) {
    exists a, b, c :: now == FlushManifest(t, id, a, b, c)
  }

  /** The last steps of a prepare that succeeded. */
  ghost predicate PreparedBy(now: Trace, id: string, o: PrepareManifestOutcome) {
    match o
    case Prepared => exists t, temp :: ManifestFlushed(Then(t, Move(ItemPath(Staging, id, temp), ManifestPath(Staging, id))), now, id)
    case AlreadyPrepared => exists t :: ManifestFlushed(t, now, id)
    case PreparedAlreadyPublished => exists t, d :: now == Then(t, Flush(ItemDir(Items, id), Synced(d)))
  }

  function AlreadyIn(a: TrashArea): PrepareManifestOutcome {
    if a == Staging then AlreadyPrepared else PreparedAlreadyPublished
  }

  ghost predicate PrepareRequestOk(r: Rules, id: string, m: Manifest) {
    r.ValidManifest(m, id) && |r.encode(m)| <= MAX_TRASH_MANIFEST_BYTES
  }

  /** What a prepare outcome promises about the directories of the id. */
  ghost predicate PrepareDone(r: Rules, s: State, id: string, m: Manifest, o: PrepareManifestOutcome) {
    match o
    case Prepared =>
      && r.Bound(s, Staging, id, m) && At(s.root, ItemDir(Items, id)) == Absent
      && forall x :: x != "manifest.json" ==> At(s.root, ItemPath(Staging, id, x)) == Absent
    case AlreadyPrepared => At(s.root, ItemDir(Items, id)) == Absent && ItemValid(r, s, Staging, id, r.digest(r.encode(m)), Optional, m)
    case PreparedAlreadyPublished => At(s.root, ItemDir(Staging, id)) == Absent && ItemValid(r, s, Items, id, r.digest(r.encode(m)), Optional, m)
  }

  /** The directory holds the manifest of another request. */
  ghost predicate BoundToOther(r: Rules, s: State, a: TrashArea, id: string, m: Manifest) {
    exists other :: other != m && r.Bound(s, a, id, other)
  }

  lemma BoundHasDirectory(r: Rules, s: State, a: TrashArea, id: string, m: Manifest)
    ensures BoundToOther(r, s, a, id, m) ==> At(s.root, ItemDir(a, id)) == IsDir
  {
    if BoundToOther(r, s, a, id, m) {
      PrefixIsDir(s.root, ManifestPath(a, id), 4);
      assert ManifestPath(a, id)[..4] == ItemDir(a, id);
    }
  }

  /** The outcome of a prepare when nothing fails. */
  ghost predicate PrepareExact(r: Rules, pre: State, id: string, m: Manifest, o: Outcome<PrepareManifestOutcome>) {
    && (At(pre.root, ItemDir(Staging, id)) == Absent && At(pre.root, ItemDir(Items, id)) == Absent &&
        NoCollision(r.naming, pre.root, AreaPath(Staging), id)
        ==> o == Done(Prepared))
    && (PrepareDone(r, pre, id, m, AlreadyPrepared) ==> o == Done(AlreadyPrepared))
    && (PrepareDone(r, pre, id, m, PreparedAlreadyPublished) ==> o == Done(PreparedAlreadyPublished))
    && (At(pre.root, ItemDir(Staging, id)) != Absent && At(pre.root, ItemDir(Items, id)) != Absent ==> o == Failed(InvalidTrashTopology))
    && (At(pre.root, ItemDir(Items, id)) == Absent && BoundToOther(r, pre, Staging, id, m) ==> o == Failed(TrashManifestCollision))
  }

  /** The tree right before the manifest rename: a new directory holding one complete
      temporary file. */
  ghost predicate NewDirectory(r: Rules, pre: State, s: State, id: string, temp: string, o: nat, m: Manifest) {
    && s.objects == pre.objects[o := FileObject(r.encode(m), 1)]
    && forall q :: At(s.root, q) ==
                   if q == ItemDir(Staging, id) then IsDir else if q == ItemPath(Staging, id, temp) then IsFile(o) else At(pre.root, q)
  }

  lemma NothingInside(root: Node, id: string)
    requires At(root, ItemDir(Staging, id)) == Absent
    ensures forall x :: At(root, ItemPath(Staging, id, x)) == Absent
  {
    forall x ensures At(root, ItemPath(Staging, id, x)) == Absent {
      assert ItemPath(Staging, id, x)[..4] == ItemDir(Staging, id);
      NothingBelow(root, ItemDir(Staging, id), ItemPath(Staging, id, x));
    }
  }

  lemma PartialPrepare(r: Rules, pre: State, post: State, id: string, m: Manifest, temp: string)
    requires r.reserved(temp) && At(pre.root, ItemDir(Items, id)) == Absent && At(pre.root, ItemDir(Staging, id)) == Absent
    requires At(post.root, ItemDir(Staging, id)) == Absent || At(post.root, ItemDir(Staging, id)) == IsDir
    requires var e := At(post.root, ItemPath(Staging, id, temp)); e == Absent || (e.IsFile? && e.obj !in pre.objects)
    requires forall q :: q != ItemDir(Staging, id) && q != ItemPath(Staging, id, temp) ==> At(post.root, q) == At(pre.root, q)
    requires forall o :: o in pre.objects ==> o in post.objects && post.objects[o] == pre.objects[o]
    ensures PrepareStep(r, pre, post, id, m, temp)
  {
    NothingInside(pre.root, id);
  }

  lemma ManifestSteps(r: Rules, pre: State, post: State, id: string, m: Manifest, temp: string)
    requires r.Lawful() && r.reserved(temp) && At(pre.root, ItemDir(Items, id)) == Absent && PrepareRequestOk(r, id, m)
    requires At(pre.root, ItemDir(Staging, id)) == Absent && forall x :: At(pre.root, ItemPath(Staging, id, x)) == Absent
    requires exists o :: o !in pre.objects && post.objects == pre.objects[o := FileObject(r.encode(m), 1)] &&
                         (At(post.root, ItemPath(Staging, id, temp)) == IsFile(o) || At(post.root, ItemPath(Staging, id, temp)) == Absent) &&
                         (At(post.root, ManifestPath(Staging, id)) == IsFile(o) || At(post.root, ManifestPath(Staging, id)) == Absent)
    requires At(post.root, ItemDir(Staging, id)) == IsDir
    requires forall q :: q != ItemDir(Staging, id) && q != ItemPath(Staging, id, temp) && q != ManifestPath(Staging, id) ==>
                           At(post.root, q) == At(pre.root, q)
    ensures PrepareStep(r, pre, post, id, m, temp)
  {
    if At(post.root, ManifestPath(Staging, id)).IsFile? {
      assert r.Bound(post, Staging, id, m);
    }
  }

  ghost predicate ContainersAdded(pre: Node, post: Node) {
    forall q :: At(post, q) == At(pre, q) ||
                (At(pre, q) == Absent && At(post, q) == IsDir && q in [[".trash"], [".trash", "v1"], AreaPath(Staging), AreaPath(Items)])
  }

  /** The two containers exist or can be made. */
  ghost predicate ContainersFree(n: Naming, root: Node) {
    Creatable(n, root, AreaPath(Staging)) && Creatable(n, root, AreaPath(Items))
  }

  /** Making the staging container leaves the way to the items container free. */
  lemma ItemsStillFree(n: Naming, pre: Node, post: Node)
    requires n.Lawful() && DirsAdded(pre, post, AreaPath(Staging)) && Creatable(n, pre, AreaPath(Items))
    ensures Creatable(n, post, AreaPath(Items))
  {
    var p, s := AreaPath(Items), AreaPath(Staging);
    forall i, x | 0 <= i < 3 && At(post, p[..i] + [x]) != Absent && n.key(x) == n.key(p[i]) ensures x == p[i] {
      assert NoCollision(n, pre, p[..i], p[i]);
      var q := p[..i] + [x];
      assert |q| == i + 1 && q[i] == x;
      if At(pre, q) == Absent {
        assert q <= s;
        assert x == s[i];
      }
    }
    assert Clear(n, post, p);
  }

  /** An item directory looks the same before and after the containers are completed. */
  lemma ValidBehind(r: Rules, pre: State, post: State, a: TrashArea, id: string, digest: string, m: Manifest)
    requires r.Lawful() && ContainersAdded(pre.root, post.root) && post.objects == pre.objects
    requires ItemValid(r, pre, a, id, digest, Optional, m)
    ensures ItemValid(r, post, a, id, digest, Optional, m)
  {
    ContainersSame(pre.root, post.root, id);
    SameShape(r, pre, post, a, a, id);
  }

  lemma ExactBehind(r: Rules, pre: State, middle: State, id: string, m: Manifest, o: Outcome<PrepareManifestOutcome>)
    requires r.Lawful() && ContainersAdded(pre.root, middle.root) && middle.objects == pre.objects
    ensures PrepareExact(r, middle, id, m, o) ==> PrepareExact(r, pre, id, m, o)
  {
    ContainersSame(pre.root, middle.root, id);
    if BoundToOther(r, pre, Staging, id, m) {
      var other :| other != m && r.Bound(pre, Staging, id, other);
      assert r.Bound(middle, Staging, id, other);
    }
    var digest := r.digest(r.encode(m));
    if ItemValid(r, pre, Staging, id, digest, Optional, m) {
      ValidBehind(r, pre, middle, Staging, id, digest, m);
    }
    if ItemValid(r, pre, Items, id, digest, Optional, m) {
      ValidBehind(r, pre, middle, Items, id, digest, m);
    }
    forall x ensures At(middle.root, AreaPath(Staging) + [x]) == At(pre.root, AreaPath(Staging) + [x]) {
      assert AreaPath(Staging) + [x] == ItemDir(Staging, x);
    }
  }

  /** A prepare can be cut off right after it made the directory: that is a step of the
      protocol, and it leaves a directory without a manifest, which no later prepare accepts. */
  lemma CutOffPrepare(r: Rules, pre: State, id: string, m: Manifest, temp: string) returns (post: State)
    requires r.reserved(temp) && WellFormed(pre) && At(pre.root, AreaPath(Staging)) == IsDir
    requires At(pre.root, ItemDir(Staging, id)) == Absent && At(pre.root, ItemDir(Items, id)) == Absent
    ensures PrepareStep(r, pre, post, id, m, temp) && post.objects == pre.objects
    ensures At(post.root, ItemDir(Staging, id)) == IsDir && At(post.root, ManifestPath(Staging, id)) == Absent
  {
    var d := ItemDir(Staging, id);
    assert Parent(d) == AreaPath(Staging);
    AddAt(pre.root, d, Dir(map[]));
    post := pre.(root := Put(pre.root, d, Some(Dir(map[]))));
    NothingBelow(pre.root, d, ManifestPath(Staging, id));
  }

  lemma ContainerDirs(pre: Node, post: Node, a: TrashArea)
    requires DirsAdded(pre, post, AreaPath(a))
    ensures ContainersAdded(pre, post)
  {
    forall q | q != [] && q <= AreaPath(a) ensures q in [[".trash"], [".trash", "v1"], AreaPath(Staging), AreaPath(Items)] {
      assert q == AreaPath(a)[..|q|];
      assert AreaPath(a)[..1] == [".trash"] && AreaPath(a)[..2] == [".trash", "v1"] && AreaPath(a)[..3] == AreaPath(a);
    }
  }

  lemma ContainersThere(pre: Node, post: Node)
    requires ContainersAdded(pre, post) && At(pre, AreaPath(Staging)) == IsDir && At(pre, AreaPath(Items)) == IsDir
    ensures post == pre
  {
    PrefixIsDir(pre, AreaPath(Staging), 1);
    PrefixIsDir(pre, AreaPath(Staging), 2);
    assert AreaPath(Staging)[..1] == [".trash"] && AreaPath(Staging)[..2] == [".trash", "v1"];
    SameTree(pre, post);
  }

  lemma ContainersSame(pre: Node, post: Node, id: string)
    requires ContainersAdded(pre, post)
    ensures forall a, i :: At(post, ItemDir(a, i)) == At(pre, ItemDir(a, i))
    ensures forall a, i, x :: At(post, ItemPath(a, i, x)) == At(pre, ItemPath(a, i, x))
  {
    forall a, i ensures At(post, ItemDir(a, i)) == At(pre, ItemDir(a, i)) {
      assert |ItemDir(a, i)| == 4;
    }
    forall a, i, x ensures At(post, ItemPath(a, i, x)) == At(pre, ItemPath(a, i, x)) {
      assert |ItemPath(a, i, x)| == 5;
    }
  }

  lemma PrepareAfterContainers(r: Rules, pre: State, middle: State, post: State, id: string, m: Manifest, temp: string)
    requires ContainersAdded(pre.root, middle.root) && pre.objects == middle.objects && PrepareStep(r, middle, post, id, m, temp)
    ensures PrepareStep(r, pre, post, id, m, temp)
  {
    ContainersSame(pre.root, middle.root, id);
  }

  lemma ItemsRename(root: Node, id: string)
    requires At(root, ItemDir(Staging, id)) == IsDir && At(root, ItemDir(Items, id)) == Absent && At(root, AreaPath(Items)) == IsDir
    ensures CanRename(root, ItemDir(Staging, id), ItemDir(Items, id))
  {
    assert Parent(ItemDir(Items, id)) == AreaPath(Items);
    assert ItemDir(Staging, id)[2][0] != ItemDir(Items, id)[2][0];
  }

  // ----- What publishing and restoring mean

  ghost predicate PublishDone(r: Rules, s: State, id: string, digest: string) {
    At(s.root, ItemDir(Staging, id)) == Absent && exists m :: ItemValid(r, s, Items, id, digest, Required, m)
  }

  ghost predicate PublishReady(r: Rules, s: State, id: string, digest: string) {
    At(s.root, ItemDir(Items, id)) == Absent && exists m :: ItemValid(r, s, Staging, id, digest, Required, m)
  }

  ghost predicate AreasClear(n: Naming, root: Node, id: string) {
    && At(root, AreaPath(Staging)) == IsDir && At(root, AreaPath(Items)) == IsDir
    && Clear(n, root, AreaPath(Staging)) && Clear(n, root, AreaPath(Items)) && Clear(n, root, ItemDir(Items, id))
  }

  ghost predicate PublishEffect(r: Rules, pre: State, post: State, id: string, digest: string, o: Outcome<PublishItemOutcome>) {
    && (post == pre || exists m :: PublishStep(r, pre, post, id, m))
    && Honest(pre.root, post.root, o)
    && (o.Done? ==> (post.root != pre.root <==> o.value.Publish?) && PublishDone(r, post, id, digest))
  }

  ghost predicate RestoreDone(r: Rules, s: State, id: string, destination: Path, digest: string) {
    exists m: Manifest :: m.original == destination && ItemValid(r, s, Items, id, digest, MustBeAbsent, m) && Exact(r.hash, s, destination, m.revision)
  }

  ghost predicate RestoreReady(r: Rules, s: State, id: string, destination: Path, digest: string) {
    At(s.root, destination) == Absent && exists m: Manifest :: m.original == destination && ItemValid(r, s, Items, id, digest, Required, m)
  }

  /** The outcome of a restore when nothing fails. */
  ghost predicate RestoreExact(r: Rules, pre: State, id: string, destination: Path, digest: string, o: Outcome<RestoreItemOutcome>) {
    && (RestoreReady(r, pre, id, destination, digest) ==> o == Done(Restored(FullySynced)))
    && (RestoreDone(r, pre, id, destination, digest) ==> o == Done(AlreadyRestored(FullySynced)))
    && (At(pre.root, Payload(Items, id)) != Absent && At(pre.root, destination) != Absent ==> o == Failed(AlreadyExists))
    && (At(pre.root, Payload(Items, id)) == Absent && At(pre.root, destination) == Absent ==> o == Failed(InvalidTrashTopology))
  }

  /** The outcome of a publish when nothing fails. */
  ghost predicate PublishExact(r: Rules, pre: State, id: string, digest: string, o: Outcome<PublishItemOutcome>) {
    && (PublishReady(r, pre, id, digest) ==> o == Done(Publish(FullySynced)))
    && (PublishDone(r, pre, id, digest) ==> o == Done(AlreadyPublished(FullySynced)))
    && ((At(pre.root, ItemDir(Staging, id)) == Absent) == (At(pre.root, ItemDir(Items, id)) == Absent) ==> o == Failed(InvalidTrashTopology))
  }

  ghost predicate RestoreClear(n: Naming, root: Node, id: string, destination: Path) {
    && destination != [] && At(root, Parent(destination)) == IsDir && Clear(n, root, destination)
    && At(root, ItemDir(Items, id)) == IsDir && Clear(n, root, ItemDir(Items, id))
  }

  ghost predicate RestoredTo(r: Rules, pre: State, post: State, id: string, destination: Path) {
    && destination != [] && NoCollision(r.naming, pre.root, Parent(destination), Leaf(destination))
    && exists m: Manifest :: m.original == destination && RestoreStep(r, pre, post, id, m)
  }

  ghost predicate RestoreEffect(r: Rules, pre: State, post: State, id: string, destination: Path, digest: string, o: Outcome<RestoreItemOutcome>) {
    && (post == pre || RestoredTo(r, pre, post, id, destination))
    && Honest(pre.root, post.root, o)
    && (o.Done? ==> (post.root != pre.root <==> o.value.Restored?) && RestoreDone(r, post, id, destination, digest))
  }

  function Other(a: TrashArea): TrashArea {
    if a == Staging then Items else Staging
  }

  function StageResult(area: TrashArea, already: bool, d: MoveDurability): StagePayloadOutcome {
    if area == Items then StageAlreadyPublished(d) else if already then AlreadyStaged(d) else Staged(d)
  }

  /** Both containers are there, and nothing collides on the way to them. */
  ghost predicate AreasOpen(n: Naming, root: Node) {
    && At(root, AreaPath(Staging)) == IsDir && Clear(n, root, AreaPath(Staging))
    && At(root, AreaPath(Items)) == IsDir && Clear(n, root, AreaPath(Items))
  }

  /** The item directory and the parent of the destination are there, and nothing collides on the
      way to them. */
  ghost predicate EndsOpen(n: Naming, root: Node, id: string, destination: Path) {
    && destination != [] && At(root, ItemDir(Items, id)) == IsDir && Clear(n, root, ItemDir(Items, id))
    && At(root, Parent(destination)) == IsDir && Clear(n, root, Parent(destination))
  }

  /** Where the payload of an id belongs: into the staging directory if there is one. */
  function StageTarget(root: Node, id: string): Path {
    Payload(if At(root, ItemDir(Staging, id)) != Absent then Staging else Items, id)
  }

  /** What staging may do to the tree, and what its success means. */
  ghost predicate StageEffect(r: Rules, pre: State, post: State, id: string, source: Path, digest: string, o: Outcome<StagePayloadOutcome>) {
    && (post == pre || StagedFrom(r, pre, post, id, source))
    && Honest(pre.root, post.root, o)
    && (o.Done? ==> (post.root != pre.root <==> o.value.Staged?) &&
                    StageDone(r, post, if o.value.StageAlreadyPublished? then Items else Staging, id, source, digest))
  }

  lemma StageNothing(r: Rules, s: State, id: string, source: Path, digest: string, e: Error)
    ensures StageEffect(r, s, s, id, source, digest, Failed(e))
  {
  }

  /** The log of a call on endpoints in two directories tells the order of its steps, and
      whether it renamed. */
  ghost predicate Logged(log: MoveLog, pre: Node, post: Node) {
    log.InOrder(false) && (log.renamed <==> post != pre)
  }

  /** The reported durability covers what was flushed earlier and the last round, which comes
      after the rename if there was one. */
  ghost predicate Reported(log: MoveLog, earlier: MoveDurability, d: MoveDurability) {
    (log.renamed ==> log.first.Some?) && log.Final().Some? && !log.Final().value.HasFailure() && d == earlier.Combine(log.Final().value.IntoResult().value)
  }

  /** A content path and a path inside the trash never share a parent directory. */
  lemma ParentsApart(n: Naming, p: Path, q: Path)
    requires n.Lawful() && p != [] && Classify(n, p) == Content && |q| > 1 && InTrash(q)
    ensures Parent(p) != Parent(q)
  {
    assert |Parent(p)| == |p| - 1 && (|p| > 1 ==> Parent(p)[0] == p[0]);
    assert |Parent(q)| == |q| - 1 && Parent(q)[0] == q[0] == ".trash";
  }

  /** The outcome of staging an id that has a staging directory, when nothing fails. */
  ghost predicate StageExact(r: Rules, pre: State, id: string, source: Path, digest: string, d: MoveDurability, o: Outcome<StagePayloadOutcome>) {
    && (StageReady(r, pre, id, source, digest) ==> o == Done(Staged(d)))
    && (StageDone(r, pre, Staging, id, source, digest) ==> o == Done(AlreadyStaged(d)))
  }

  /** The outcome of staging when nothing fails, whatever directories the id has. */
  ghost predicate StageDecided(r: Rules, pre: State, id: string, source: Path, digest: string, d: MoveDurability, o: Outcome<StagePayloadOutcome>) {
    && StageExact(r, pre, id, source, digest, d, o)
    && (StageDone(r, pre, Items, id, source, digest) ==> o == Done(StageAlreadyPublished(d)))
    && ((At(pre.root, ItemDir(Staging, id)) == Absent) == (At(pre.root, ItemDir(Items, id)) == Absent) ==> o == Failed(InvalidTrashTopology))
  }

  /** The payload bound to `source` is complete in `area`, the source is gone, and the other
      area does not know the id. */
  ghost predicate StageDone(r: Rules, s: State, area: TrashArea, id: string, source: Path, digest: string) {
    && At(s.root, source) == Absent && At(s.root, ItemDir(Other(area), id)) == Absent
    && exists m: Manifest :: m.original == source && ItemValid(r, s, area, id, digest, Required, m)
  }

  /** Nothing on the way to the source or the item directories collides. */
  ghost predicate WaysClear(n: Naming, root: Node, id: string, source: Path) {
    && source != [] && At(root, Parent(source)) == IsDir && Clear(n, root, source)
    && At(root, AreaPath(Staging)) == IsDir && At(root, AreaPath(Items)) == IsDir
    && Clear(n, root, AreaPath(Staging)) && Clear(n, root, AreaPath(Items))
    && Clear(n, root, Payload(Staging, id)) && Clear(n, root, ItemDir(Items, id))
  }

  /** A prepared item whose source is the expected single-link file. */
  ghost predicate StageReady(r: Rules, s: State, id: string, source: Path, digest: string) {
    && At(s.root, ItemDir(Items, id)) == Absent
    && exists m: Manifest :: m.original == source && ItemValid(r, s, Staging, id, digest, MustBeAbsent, m) && Exact(r.hash, s, source, m.revision)
  }

  ghost predicate StagedFrom(r: Rules, pre: State, post: State, id: string, source: Path) {
    exists m: Manifest :: m.original == source && StageStep(r, pre, post, id, m)
  }
}
