// Sequences of Trash store calls: every one is a run of the protocol, so what holds of all
// runs holds of the store.

module TrashRuns {
  import opened Tree
  import opened Paths
  import opened Disk
  import opened TrashProtocol
  import opened TrashCalls
  import opened TrashRepeats

  datatype Call =
    | CallPrepare(id: string, manifest: Manifest, temp: string)
    | CallStage(id: string, source: Path, digest: string)
    | CallPublish(id: string, digest: string)
    | CallRestore(id: string, destination: Path, digest: string)

  predicate Callable(r: Rules, c: Call) {
    match c
    case CallPrepare(_, _, temp) => r.reserved(temp)
    case CallStage(_, source, _) => source != []
    case CallPublish(_, _) => true
    case CallRestore(_, destination, _) => destination != []
  }

  /** Any calls over any ids in any order, each of which may fail or be cut off anywhere. The
      states between them form a run. */
  method RunCalls(t: TrashStore, calls: seq<Call>) returns (ghost run: seq<State>)
    requires t.Valid() && TrashInv(t.rules, t.vault.View()) && forall c :: c in calls ==> Callable(t.rules, c)
    modifies t.vault`root, t.vault`steps, t.vault`objects, t.vault`next
    ensures t.Valid() && TrashRun(t.rules, run) && |run| == |calls| + 1
    ensures run[0] == old(t.vault.View()) && run[|calls|] == t.vault.View()
    ensures TrashInv(t.rules, t.vault.View())
  {
    run := [t.vault.View()];
    var i := 0;
    while i < |calls|
      invariant 0 <= i <= |calls|
      invariant t.Valid() && |run| == i + 1
      invariant run[0] == old(t.vault.View()) && run[i] == t.vault.View()
      invariant TrashRun(t.rules, run)
    {
      assert calls[i] in calls;
      RunOne(t, calls[i]);
      ExtendRun(t.rules, run, t.vault.View());
      run := run + [t.vault.View()];
      i := i + 1;
    }
    RunKeepsInv(t.rules, run, |calls|);
  }

  lemma ExtendRun(r: Rules, run: seq<State>, next: State)
    requires TrashRun(r, run) && TrashStep(r, run[|run| - 1], next) && WellFormed(next)
    ensures TrashRun(r, run + [next])
  {
    var longer := run + [next];
    forall i | 0 <= i < |longer| - 1 ensures TrashStep(r, longer[i], longer[i + 1]) {
      assert longer[i] == run[i];
      if i + 1 < |run| { assert longer[i + 1] == run[i + 1]; }
    }
  }

  method RunOne(t: TrashStore, c: Call)
    requires t.Valid() && Callable(t.rules, c)
    modifies t.vault`root, t.vault`steps, t.vault`objects, t.vault`next
    ensures t.Valid() && TrashStep(t.rules, old(t.vault.View()), t.vault.View())
  {
    match c {
      case CallPrepare(id, m, temp) =>
        var _ := t.PrepareManifest(id, m, temp);
        assert PrepareStep(t.rules, old(t.vault.View()), t.vault.View(), id, m, temp);
      case CallStage(id, source, digest) =>
        var _, _, _ := t.StagePayload(id, source, digest);
      case CallPublish(id, digest) =>
        var _, _ := t.PublishItem(id, digest);
      case CallRestore(id, destination, digest) =>
        var _, _ := t.RestoreItem(id, destination, digest);
    }
  }

  /** Every sequence of calls keeps each content file in exactly one place that belongs to its
      path; and if at the end the trash holds the same files for the same paths, the tree
      outside `.trash` is what it was. */
  method RunCallsKeepsFiles(t: TrashStore, calls: seq<Call>, o: nat, h: Path)
    requires t.Valid() && TrashInv(t.rules, t.vault.View()) && forall c :: c in calls ==> Callable(t.rules, c)
    requires Classify(t.rules.naming, h) == Content && OnlyAt(t.vault.View(), o, h)
    modifies t.vault`root, t.vault`steps, t.vault`objects, t.vault`next
    ensures exists q :: OnlyAt(t.vault.View(), o, q) && Home(t.rules, t.vault.View(), q, h)
    ensures o in t.vault.objects && t.vault.objects[o] == old(t.vault.objects[o])
    ensures old(TrashedOnce(t.rules, t.vault.View())) && SameTrash(t.rules, old(t.vault.View()), t.vault.View()) ==>
              SameOutsideTrash(old(t.vault.root), t.vault.root)
  {
    ghost var run := RunCalls(t, calls);
    RunKeepsFile(t.rules, run, |calls|, o, h);
    if TrashedOnce(t.rules, run[0]) && SameTrash(t.rules, run[0], run[|run| - 1]) {
      RestoredRunIsIdentity(t.rules, run);
    }
  }

  lemma PrepareOutside(r: Rules, pre: State, post: State, id: string, m: Manifest, temp: string)
    requires PrepareStep(r, pre, post, id, m, temp)
    ensures SameOutsideTrash(pre.root, post.root)
  {
    forall p | !InTrash(p) ensures At(post.root, p) == At(pre.root, p) {
      assert p != [".trash"] && p != [".trash", "v1"] && p != AreaPath(Staging) && p != AreaPath(Items);
      assert InTrash(ItemDir(Staging, id)) && InTrash(ItemPath(Staging, id, temp)) && InTrash(ManifestPath(Staging, id));
    }
  }

  ghost predicate SameOutsideTrash(a: Node, b: Node) {
    forall p :: !InTrash(p) ==> At(a, p) == At(b, p)
  }

  lemma PublishOutside(r: Rules, pre: State, post: State, id: string, m: Manifest)
    requires PublishStep(r, pre, post, id, m)
    ensures SameOutsideTrash(pre.root, post.root)
    ensures At(post.root, Payload(Items, id)) == At(pre.root, Payload(Staging, id))
  {
    PublishAt(r, pre, post, id, m);
    forall p | !InTrash(p) ensures At(post.root, p) == At(pre.root, p) {
      assert ItemDir(Staging, id)[0] == ".trash" && ItemDir(Items, id)[0] == ".trash";
    }
  }

  /** Taking a file into the trash, publishing the item and bringing the file back changes
      nothing outside the trash. */
  lemma ThereAndBack(r: Rules, s0: State, s1: State, s2: State, s3: State, id: string, source: Path)
    requires r.Lawful() && StagedFrom(r, s0, s1, id, source) && RestoredTo(r, s2, s3, id, source)
    requires PublishedFrom(r, s1, s2, id)
    ensures SameOutsideTrash(s0.root, s3.root)
  {
    var m :| PublishStep(r, s1, s2, id, m);
    PublishOutside(r, s1, s2, id, m);
    RenameFile(s0.root, source, Payload(Staging, id));
    RenameFile(s2.root, Payload(Items, id), source);
    assert InTrash(Payload(Staging, id)) && InTrash(Payload(Items, id));
  }

  /** Prepare, stage, publish and restore of one item. When all four succeed and do their work,
      the tree outside `.trash` ends as it began; and they do, when the file is where the
      manifest says, the id is new, nothing is in the way and nothing fails. */
  method RoundTrip(t: TrashStore, id: string, m: Manifest, temp: string) returns (ok: bool)
    requires t.Valid() && t.rules.reserved(temp) && m.original != []
    modifies t.vault`root, t.vault`steps, t.vault`objects, t.vault`next
    ensures t.Valid()
    ensures ok ==> SameOutsideTrash(old(t.vault.root), t.vault.root)
    ensures t.vault.calm && old(Trashable(t.rules, t.vault.View(), id, m)) ==> ok
  {
    ghost var start := t.vault.View();
    var prepared := t.PrepareManifest(id, m, temp);
    ghost var s0 := t.vault.View();
    PrepareOutside(t.rules, start, s0, id, m, temp);
    if !prepared.Done? { return false; }
    ghost var quiet := t.vault.calm && Trashable(t.rules, start, id, m);
    if quiet {
      PreparedPhase(t.rules, start, s0, id, m, temp);
    }
    ok := TripBody(t, id, m, quiet);
  }

  /** The three calls after the prepare. */
  method TripBody(t: TrashStore, id: string, m: Manifest, ghost quiet: bool) returns (ok: bool)
    requires t.Valid() && m.original != []
    requires quiet ==> t.vault.calm && InPhase(t.rules, t.vault.View(), id, m, AtSource)
    modifies t.vault`root, t.vault`steps
    ensures t.Valid()
    ensures ok ==> SameOutsideTrash(old(t.vault.root), t.vault.root)
    ensures quiet ==> ok
  {
    ghost var s0 := t.vault.View();
    ok := StageTrip(t, id, m, quiet);
    if !ok { return; }
    ghost var s1 := t.vault.View();
    ok := PublishTrip(t, id, m, quiet);
    if !ok { return; }
    ghost var s2 := t.vault.View();
    ok := RestoreTrip(t, id, m, quiet);
    if !ok { return; }
    ThereAndBack(t.rules, s0, s1, s2, t.vault.View(), id, m.original);
  }

  method StageTrip(t: TrashStore, id: string, m: Manifest, ghost quiet: bool) returns (ok: bool)
    requires t.Valid() && m.original != []
    requires quiet ==> t.vault.calm && InPhase(t.rules, t.vault.View(), id, m, AtSource)
    modifies t.vault`root, t.vault`steps
    ensures t.Valid() && (ok ==> StagedFrom(t.rules, old(t.vault.View()), t.vault.View(), id, m.original))
    ensures quiet ==> ok && InPhase(t.rules, t.vault.View(), id, m, AtStaging)
  {
    ghost var before := t.vault.View();
    if quiet { PhaseMeans(t.rules, before, id, m, AtSource); }
    var staged, _, _ := t.StagePayload(id, m.original, DigestOf(t.rules, m));
    ok := staged.Done? && staged.value.Staged?;
    if quiet { StageMoved(t.rules, before, t.vault.View(), id, m, AtSource); }
  }

  method PublishTrip(t: TrashStore, id: string, m: Manifest, ghost quiet: bool) returns (ok: bool)
    requires t.Valid()
    requires quiet ==> t.vault.calm && InPhase(t.rules, t.vault.View(), id, m, AtStaging)
    modifies t.vault`root, t.vault`steps
    ensures t.Valid() && (ok ==> PublishedFrom(t.rules, old(t.vault.View()), t.vault.View(), id))
    ensures quiet ==> ok && InPhase(t.rules, t.vault.View(), id, m, AtItems)
  {
    ghost var before := t.vault.View();
    if quiet { PhaseMeans(t.rules, before, id, m, AtStaging); }
    var published, _ := t.PublishItem(id, DigestOf(t.rules, m));
    ok := published.Done? && published.value.Publish?;
    if quiet { PublishMoved(t.rules, before, t.vault.View(), id, m, AtStaging); }
  }

  method RestoreTrip(t: TrashStore, id: string, m: Manifest, ghost quiet: bool) returns (ok: bool)
    requires t.Valid() && m.original != []
    requires quiet ==> t.vault.calm && InPhase(t.rules, t.vault.View(), id, m, AtItems)
    modifies t.vault`root, t.vault`steps
    ensures t.Valid() && (ok ==> RestoredTo(t.rules, old(t.vault.View()), t.vault.View(), id, m.original))
    ensures quiet ==> ok
  {
    if quiet { PhaseMeans(t.rules, t.vault.View(), id, m, AtItems); }
    var restored, _ := t.RestoreItem(id, m.original, DigestOf(t.rules, m));
    ok := restored.Done? && restored.value.Restored?;
  }
}
