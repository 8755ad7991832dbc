// Repeated Trash calls of one id: the store's own renames leave every way clear, so a call
// that is made again, after a success or after being cut off, is recognised or finished.

module TrashRepeats {
  import opened Wrappers
  import opened Tree
  import opened Paths
  import opened Disk
  import opened VaultCore
  import opened Mutations
  import opened TrashProtocol
  import opened TrashCalls

  // ----- Ways stay clear

  /** Everything that is new in `post` is at or below `d`. */
  ghost predicate NewBelow(pre: Node, post: Node, d: Path) {
    forall q :: At(pre, q) == Absent && At(post, q) != Absent ==> d <= q
  }

  /** Nothing at or below `d` shares a key with a component of `q`, unless it is `q` itself. */
  ghost predicate Beside(n: Naming, d: Path, q: Path)
    requires d != []
  {
    |d| <= |q| && Parent(d) <= q && n.key(q[|d| - 1]) == n.key(Leaf(d)) ==> q == d
  }

  lemma StillApart(n: Naming, pre: Node, post: Node, d: Path, q: Path, i: nat, x: string)
    requires d != [] && NewBelow(pre, post, d) && Beside(n, d, q) && i < |q| && n.key(x) == n.key(q[i])
    requires At(pre, q[..i] + [x]) == Absent && At(post, q[..i] + [x]) != Absent
    ensures x == q[i]
  {
    var p := q[..i] + [x];
    assert d <= p && d[|d| - 1] == p[|d| - 1];
    assert Parent(d) == p[..|d| - 1] == q[..|d| - 1];
    assert q == d;
  }

  lemma StillClear(n: Naming, pre: Node, post: Node, d: Path, q: Path)
    requires d != [] && NewBelow(pre, post, d) && Beside(n, d, q) && Clear(n, pre, q)
    ensures Clear(n, post, q)
  {
    forall i, x | 0 <= i < |q| && At(post, q[..i] + [x]) != Absent && n.key(x) == n.key(q[i]) ensures x == q[i] {
      assert NoCollision(n, pre, q[..i], q[i]);
      if At(pre, q[..i] + [x]) == Absent {
        StillApart(n, pre, post, d, q, i, x);
      }
    }
  }

  /** A content path and the trash never stand beside each other. */
  lemma ContentBesideTrash(n: Naming, p: Path, t: Path)
    requires n.Lawful() && p != [] && Classify(n, p) == Content && InTrash(t)
    ensures Beside(n, p, t) && Beside(n, t, p)
  {
    assert |p| > 1 ==> Parent(p)[0] == p[0];
    assert |t| > 1 ==> Parent(t)[0] == t[0];
  }

  lemma RenameNewBelow(root: Node, s: Path, d: Path)
    requires CanRename(root, s, d)
    ensures NewBelow(root, Rename(root, s, d), d)
  {
    RenameAll(root, s, d);
  }

  /** The same for the five paths of a stage. */
  lemma FiveStillClear(n: Naming, pre: Node, post: Node, d: Path, p: Path, q: Path, r: Path, s: Path, t: Path)
    requires d != [] && NewBelow(pre, post, d)
    requires Beside(n, d, p) && Beside(n, d, q) && Beside(n, d, r) && Beside(n, d, s) && Beside(n, d, t)
    requires Clear(n, pre, p) && Clear(n, pre, q) && Clear(n, pre, r) && Clear(n, pre, s) && Clear(n, pre, t)
    ensures Clear(n, post, p) && Clear(n, post, q) && Clear(n, post, r) && Clear(n, post, s) && Clear(n, post, t)
  {
    StillClear(n, pre, post, d, p);
    StillClear(n, pre, post, d, q);
    StillClear(n, pre, post, d, r);
    StillClear(n, pre, post, d, s);
    StillClear(n, pre, post, d, t);
  }

  lemma PayloadBeside(n: Naming, id: string, source: Path)
    requires n.Lawful() && source != [] && Classify(n, source) == Content
    ensures Beside(n, Payload(Staging, id), source)
    ensures Beside(n, Payload(Staging, id), AreaPath(Staging))
    ensures Beside(n, Payload(Staging, id), AreaPath(Items))
    ensures Beside(n, Payload(Staging, id), Payload(Staging, id))
    ensures Beside(n, Payload(Staging, id), ItemDir(Items, id))
  {
    ContentBesideTrash(n, source, Payload(Staging, id));
  }

  lemma ItemBeside(n: Naming, id: string, source: Path)
    requires n.Lawful() && source != [] && Classify(n, source) == Content
    ensures Beside(n, ItemDir(Items, id), source)
    ensures Beside(n, ItemDir(Items, id), AreaPath(Staging))
    ensures Beside(n, ItemDir(Items, id), AreaPath(Items))
    ensures Beside(n, ItemDir(Items, id), Payload(Staging, id))
    ensures Beside(n, ItemDir(Items, id), ItemDir(Items, id))
  {
    ContentBesideTrash(n, source, ItemDir(Items, id));
    assert Parent(ItemDir(Items, id)) == AreaPath(Items);
    assert !(AreaPath(Items) <= Payload(Staging, id)) by {
      assert AreaPath(Items)[2][0] != Payload(Staging, id)[2][0];
    }
  }

  lemma StageKeepsWays(r: Rules, pre: State, post: State, id: string, m: Manifest)
    requires r.Lawful() && StageStep(r, pre, post, id, m) && WaysClear(r.naming, pre.root, id, m.original)
    ensures WaysClear(r.naming, post.root, id, m.original)
  {
    var s, d := m.original, Payload(Staging, id);
    RenameNewBelow(pre.root, s, d);
    RenameFile(pre.root, s, d);
    PayloadBeside(r.naming, id, s);
    assert |d| == 5 && Parent(s) != s && Parent(s) != d;
    FiveStillClear(r.naming, pre.root, post.root, d, s, AreaPath(Staging), AreaPath(Items), Payload(Staging, id), ItemDir(Items, id));
  }

  lemma PublishKeepsWays(r: Rules, pre: State, post: State, id: string, m: Manifest, source: Path)
    requires r.Lawful() && PublishStep(r, pre, post, id, m) && WaysClear(r.naming, pre.root, id, source)
    requires Classify(r.naming, source) == Content
    ensures WaysClear(r.naming, post.root, id, source) && At(post.root, source) == At(pre.root, source)
  {
    var s, d := ItemDir(Staging, id), ItemDir(Items, id);
    RenameNewBelow(pre.root, s, d);
    PublishAt(r, pre, post, id, m);
    ItemBeside(r.naming, id, source);
    ContentOutside(r.naming, source);
    assert s[0] == d[0] == ".trash" && |s| == |d| == 4;
    assert Parent(source) != [] ==> Parent(source)[0] == source[0];
    FiveStillClear(r.naming, pre.root, post.root, d, source, AreaPath(Staging), AreaPath(Items), Payload(Staging, id), ItemDir(Items, id));
  }

  lemma RestoreKeepsWays(r: Rules, pre: State, post: State, id: string, m: Manifest)
    requires r.Lawful() && RestoreStep(r, pre, post, id, m) && RestoreClear(r.naming, pre.root, id, m.original)
    ensures RestoreClear(r.naming, post.root, id, m.original)
  {
    var n, s, d := r.naming, Payload(Items, id), m.original;
    RenameNewBelow(pre.root, s, d);
    RenameFile(pre.root, s, d);
    ContentBesideTrash(n, d, ItemDir(Items, id));
    StillClear(n, pre.root, post.root, d, d);
    StillClear(n, pre.root, post.root, d, ItemDir(Items, id));
  }

  // ----- One item on its way into the trash

  datatype Phase = AtSource | AtStaging | AtItems

  function DigestOf(r: Rules, m: Manifest): string {
    r.digest(r.encode(m))
  }

  /** The item of manifest `m` is prepared, staged or published, and nothing on its way
      collides. */
  ghost predicate InPhase(r: Rules, s: State, id: string, m: Manifest, phase: Phase) {
    && WaysClear(r.naming, s.root, id, m.original)
    && match phase
       case AtSource => ItemValid(r, s, Staging, id, DigestOf(r, m), MustBeAbsent, m) && At(s.root, ItemDir(Items, id)) == Absent &&
                        Exact(r.hash, s, m.original, m.revision)
       case AtStaging => ItemValid(r, s, Staging, id, DigestOf(r, m), Required, m) && At(s.root, ItemDir(Items, id)) == Absent &&
                         At(s.root, m.original) == Absent
       case AtItems => ItemValid(r, s, Items, id, DigestOf(r, m), Required, m) && At(s.root, ItemDir(Staging, id)) == Absent &&
                       At(s.root, m.original) == Absent
  }

  /** Where the file of the item is. */
  function FileIn(root: Node, id: string, m: Manifest, phase: Phase): Entry {
    At(root, match phase case AtSource => m.original case AtStaging => Payload(Staging, id) case AtItems => Payload(Items, id))
  }

  /** What the calls ask for in each phase. */
  lemma PhaseMeans(r: Rules, s: State, id: string, m: Manifest, phase: Phase)
    requires InPhase(r, s, id, m, phase)
    ensures AreasClear(r.naming, s.root, id) && ContainersFree(r.naming, s.root) && Classify(r.naming, m.original) == Content
    ensures match phase
            case AtSource => StageReady(r, s, id, m.original, DigestOf(r, m)) && PrepareDone(r, s, id, m, AlreadyPrepared)
            case AtStaging => StageDone(r, s, Staging, id, m.original, DigestOf(r, m)) && PublishReady(r, s, id, DigestOf(r, m)) &&
                              PrepareDone(r, s, id, m, AlreadyPrepared)
            case AtItems => StageDone(r, s, Items, id, m.original, DigestOf(r, m)) && PublishDone(r, s, id, DigestOf(r, m)) &&
                            PrepareDone(r, s, id, m, PreparedAlreadyPublished) &&
                            RestoreReady(r, s, id, m.original, DigestOf(r, m)) && RestoreClear(r.naming, s.root, id, m.original)
  {
    ExistingIsCreatable(r.naming, s.root, AreaPath(Staging));
    ExistingIsCreatable(r.naming, s.root, AreaPath(Items));
  }

  /** Only a prepared item can be staged, and then it is. */
  lemma StageMoved(r: Rules, pre: State, post: State, id: string, m: Manifest, before: Phase)
    requires r.Lawful() && InPhase(r, pre, id, m, before) && StagedFrom(r, pre, post, id, m.original)
    ensures before == AtSource && InPhase(r, post, id, m, AtStaging) && post.objects == pre.objects
    ensures FileIn(post.root, id, m, AtStaging) == FileIn(pre.root, id, m, AtSource)
  {
    var bound: Manifest :| bound.original == m.original && StageStep(r, pre, post, id, bound);
    assert before == AtSource;
    BoundUnique(r, pre, Staging, id, m, bound);
    StagedValid(r, pre, id, DigestOf(r, m), m);
    RenameAt(pre.root, m.original, Payload(Staging, id), Payload(Staging, id));
    assert m.original + Payload(Staging, id)[|Payload(Staging, id)|..] == m.original;
    StageKeepsWays(r, pre, post, id, m);
  }

  /** Only a staged item can be published, and then it is. */
  lemma PublishMoved(r: Rules, pre: State, post: State, id: string, m: Manifest, before: Phase)
    requires r.Lawful() && InPhase(r, pre, id, m, before) && PublishedFrom(r, pre, post, id)
    ensures before == AtStaging && InPhase(r, post, id, m, AtItems) && post.objects == pre.objects
    ensures FileIn(post.root, id, m, AtItems) == FileIn(pre.root, id, m, AtStaging)
  {
    var bound :| PublishStep(r, pre, post, id, bound);
    PrefixIsDir(pre.root, Payload(Staging, id), 4);
    assert Payload(Staging, id)[..4] == ItemDir(Staging, id);
    assert before == AtStaging;
    BoundUnique(r, pre, Staging, id, m, bound);
    PublishedValid(r, pre, id, DigestOf(r, m), m);
    PublishAt(r, pre, post, id, m);
    PublishKeepsWays(r, pre, post, id, m, m.original);
  }

  ghost predicate PublishedFrom(r: Rules, pre: State, post: State, id: string) {
    exists m :: PublishStep(r, pre, post, id, m)
  }

  /** One more prepare of an item on its way: nothing changes. */
  method PrepareOn(t: TrashStore, id: string, m: Manifest, temp: string, ghost before: Phase) returns (o: Outcome<PrepareManifestOutcome>)
    requires t.Valid() && t.rules.reserved(temp) && InPhase(t.rules, t.vault.View(), id, m, before)
    modifies t.vault`root, t.vault`steps, t.vault`objects, t.vault`next
    ensures t.Valid() && t.vault.View() == old(t.vault.View())
    ensures t.vault.calm ==> o == Done(if before == AtItems then PreparedAlreadyPublished else AlreadyPrepared)
  {
    PhaseMeans(t.rules, t.vault.View(), id, m, before);
    assert PrepareRequestOk(t.rules, id, m);
    o := t.PrepareManifest(id, m, temp);
  }

  /** What the answer of a stage tells: the phases around it, and the answer itself when nothing
      failed. */
  ghost predicate StageReply(o: Outcome<StagePayloadOutcome>, before: Phase, after: Phase, calm: bool) {
    && (after == before || (before == AtSource && after == AtStaging))
    && (o.Failed? && o.error != VerifiedMoveOutcomeUnknown ==> after == before)
    && (o.Done? ==> (o.value.Staged? <==> before == AtSource) && after != AtSource)
    && (calm ==> o == Done(match before
                           case AtSource => Staged(FullySynced)
                           case AtStaging => AlreadyStaged(FullySynced)
                           case AtItems => StageAlreadyPublished(FullySynced)))
  }

  ghost predicate PublishReply(o: Outcome<PublishItemOutcome>, before: Phase, after: Phase, calm: bool) {
    && (after == before || (before == AtStaging && after == AtItems))
    && (o.Failed? && o.error != VerifiedMoveOutcomeUnknown ==> after == before)
    && (o.Done? ==> (o.value.Publish? <==> before == AtStaging) && after == AtItems)
    && (calm && before == AtStaging ==> o == Done(Publish(FullySynced)))
    && (calm && before == AtItems ==> o == Done(AlreadyPublished(FullySynced)))
  }

  /** One stage of an item on its way, with any result. */
  method StageOn(t: TrashStore, id: string, m: Manifest, ghost before: Phase) returns (o: Outcome<StagePayloadOutcome>, ghost after: Phase)
    requires t.Valid() && InPhase(t.rules, t.vault.View(), id, m, before)
    modifies t.vault`root, t.vault`steps
    ensures t.Valid() && InPhase(t.rules, t.vault.View(), id, m, after)
    ensures StageReply(o, before, after, t.vault.calm)
    ensures after == before ==> t.vault.View() == old(t.vault.View())
    ensures FileIn(t.vault.root, id, m, after) == old(FileIn(t.vault.root, id, m, before))
    ensures after != before ==> StagedFrom(t.rules, old(t.vault.View()), t.vault.View(), id, m.original)
  {
    ghost var start := t.vault.View();
    PhaseMeans(t.rules, start, id, m, before);
    var container, log;
    o, container, log := t.StagePayload(id, m.original, DigestOf(t.rules, m));
    after := before;
    if t.vault.root != start.root {
      StageMoved(t.rules, start, t.vault.View(), id, m, before);
      after := AtStaging;
    }
  }

  /** One publish of an item on its way, with any result. */
  method PublishOn(t: TrashStore, id: string, m: Manifest, ghost before: Phase) returns (o: Outcome<PublishItemOutcome>, ghost after: Phase)
    requires t.Valid() && InPhase(t.rules, t.vault.View(), id, m, before)
    modifies t.vault`root, t.vault`steps
    ensures t.Valid() && InPhase(t.rules, t.vault.View(), id, m, after)
    ensures PublishReply(o, before, after, t.vault.calm)
    ensures after == before ==> t.vault.View() == old(t.vault.View())
    ensures FileIn(t.vault.root, id, m, after) == old(FileIn(t.vault.root, id, m, before))
    ensures after != before ==> PublishedFrom(t.rules, old(t.vault.View()), t.vault.View(), id)
  {
    ghost var start := t.vault.View();
    PhaseMeans(t.rules, start, id, m, before);
    var log;
    o, log := t.PublishItem(id, DigestOf(t.rules, m));
    after := before;
    if t.vault.root != start.root {
      PublishMoved(t.rules, start, t.vault.View(), id, m, before);
      after := AtItems;
    }
  }

  // ----- Calls made again

  lemma SecondPublish(first: Outcome<PublishItemOutcome>, second: Outcome<PublishItemOutcome>, middle: Phase, after: Phase, calm: bool)
    requires PublishReply(first, AtStaging, middle, calm) && PublishReply(second, middle, after, true)
    ensures after == AtItems
    ensures first.Done? ==> first.value.Publish? && second == Done(AlreadyPublished(FullySynced))
    ensures calm ==> first == Done(Publish(FullySynced))
    ensures first.Failed? && first.error != VerifiedMoveOutcomeUnknown ==> second == Done(Publish(FullySynced))
    ensures second == Done(Publish(FullySynced)) || second == Done(AlreadyPublished(FullySynced))
  {
  }

  /** Staging a prepared item again after a call with any result: the second, undisturbed call
      succeeds, and both together move the source exactly once. */
  method StageAgain(t: TrashStore, id: string, m: Manifest)
    returns (first: Outcome<StagePayloadOutcome>, second: Outcome<StagePayloadOutcome>)
    requires t.Valid() && InPhase(t.rules, t.vault.View(), id, m, AtSource)
    modifies t.vault`root, t.vault`steps, t.vault`calm
    ensures t.Valid() && StagedFrom(t.rules, old(t.vault.View()), t.vault.View(), id, m.original)
    ensures InPhase(t.rules, t.vault.View(), id, m, AtStaging)
    ensures first.Done? ==> first.value.Staged? && second == Done(AlreadyStaged(FullySynced))
    ensures old(t.vault.calm) ==> first == Done(Staged(FullySynced))
    ensures first.Failed? && first.error != VerifiedMoveOutcomeUnknown ==> second == Done(Staged(FullySynced))
    ensures second == Done(Staged(FullySynced)) || second == Done(AlreadyStaged(FullySynced))
  {
    ghost var phase;
    first, phase := StageOn(t, id, m, AtSource);
    t.vault.Calm();
    second, phase := StageOn(t, id, m, phase);
  }

  /** Publishing a staged item again, in the same way. */
  method PublishAgain(t: TrashStore, id: string, m: Manifest)
    returns (first: Outcome<PublishItemOutcome>, second: Outcome<PublishItemOutcome>)
    requires t.Valid() && InPhase(t.rules, t.vault.View(), id, m, AtStaging)
    modifies t.vault`root, t.vault`steps, t.vault`calm
    ensures t.Valid() && PublishedFrom(t.rules, old(t.vault.View()), t.vault.View(), id)
    ensures InPhase(t.rules, t.vault.View(), id, m, AtItems)
    ensures first.Done? ==> first.value.Publish? && second == Done(AlreadyPublished(FullySynced))
    ensures old(t.vault.calm) ==> first == Done(Publish(FullySynced))
    ensures first.Failed? && first.error != VerifiedMoveOutcomeUnknown ==> second == Done(Publish(FullySynced))
    ensures second == Done(Publish(FullySynced)) || second == Done(AlreadyPublished(FullySynced))
  {
    ghost var middle, after;
    first, middle := PublishOn(t, id, m, AtStaging);
    t.vault.Calm();
    second, after := PublishOn(t, id, m, middle);
    SecondPublish(first, second, middle, after, old(t.vault.calm));
  }

  /** Preparing, staging and publishing a published item once more: all three recognise it and
      change nothing. */
  method RepeatAll(t: TrashStore, id: string, m: Manifest, temp: string)
    returns (prepared: Outcome<PrepareManifestOutcome>, staged: Outcome<StagePayloadOutcome>, published: Outcome<PublishItemOutcome>)
    requires t.Valid() && t.vault.calm && t.rules.reserved(temp) && InPhase(t.rules, t.vault.View(), id, m, AtItems)
    modifies t.vault`root, t.vault`steps, t.vault`objects, t.vault`next
    ensures t.Valid() && t.vault.View() == old(t.vault.View())
    ensures prepared == Done(PreparedAlreadyPublished) && staged == Done(StageAlreadyPublished(FullySynced))
    ensures published == Done(AlreadyPublished(FullySynced))
  {
    ghost var phase;
    prepared := PrepareOn(t, id, m, temp, AtItems);
    staged, phase := StageOn(t, id, m, AtItems);
    published, phase := PublishOn(t, id, m, AtItems);
  }

  /** The same right after a publish that succeeded. */
  method RepeatAfterPublish(t: TrashStore, id: string, m: Manifest, temp: string)
    returns (published: Outcome<PublishItemOutcome>, prepared: Outcome<PrepareManifestOutcome>, staged: Outcome<StagePayloadOutcome>,
             again: Outcome<PublishItemOutcome>)
    requires t.Valid() && t.rules.reserved(temp) && InPhase(t.rules, t.vault.View(), id, m, AtStaging)
    modifies t.vault`root, t.vault`steps, t.vault`objects, t.vault`next, t.vault`calm
    ensures t.Valid()
    ensures published.Done? ==> PublishedFrom(t.rules, old(t.vault.View()), t.vault.View(), id)
    ensures published.Done? ==> prepared == Done(PreparedAlreadyPublished) && staged == Done(StageAlreadyPublished(FullySynced)) &&
                                again == Done(AlreadyPublished(FullySynced))
    ensures old(t.vault.calm) ==> published == Done(Publish(FullySynced))
  {
    ghost var phase;
    prepared, staged, again := Stopped, Stopped, Stopped;
    published, phase := PublishOn(t, id, m, AtStaging);
    if published.Done? {
      t.vault.Calm();
      prepared, staged, again := RepeatAll(t, id, m, temp);
    }
  }

  datatype Attempt = TryPrepare(temp: string) | TryStage | TryPublish

  /** A prepared item finds its way into the trash: after any number of calls in any order, each
      of which may fail or be cut off anywhere, one undisturbed stage and publish put the file
      into the items container under its manifest, fully synced. */
  method FinishAfterCuts(t: TrashStore, id: string, m: Manifest, attempts: seq<Attempt>)
    returns (staged: Outcome<StagePayloadOutcome>, published: Outcome<PublishItemOutcome>)
    requires t.Valid() && InPhase(t.rules, t.vault.View(), id, m, AtSource)
    requires forall a :: a in attempts && a.TryPrepare? ==> t.rules.reserved(a.temp)
    modifies t.vault`root, t.vault`steps, t.vault`objects, t.vault`next, t.vault`calm
    ensures t.Valid() && InPhase(t.rules, t.vault.View(), id, m, AtItems)
    ensures At(t.vault.root, Payload(Items, id)) == old(At(t.vault.root, m.original)) && t.vault.objects == old(t.vault.objects)
    ensures staged.Done? && staged.value.durability == FullySynced && published.Done? && published.value.durability == FullySynced
  {
    ghost var file := FileIn(t.vault.root, id, m, AtSource);
    ghost var phase := AtSource;
    var i := 0;
    while i < |attempts|
      invariant t.Valid() && InPhase(t.rules, t.vault.View(), id, m, phase) && t.vault.objects == old(t.vault.objects)
      invariant FileIn(t.vault.root, id, m, phase) == file
    {
      assert attempts[i] in attempts;
      phase := Try(t, id, m, attempts[i], phase);
      i := i + 1;
    }
    t.vault.Calm();
    staged, phase := StageOn(t, id, m, phase);
    published, phase := PublishOn(t, id, m, phase);
  }

  method Try(t: TrashStore, id: string, m: Manifest, a: Attempt, ghost before: Phase) returns (ghost after: Phase)
    requires t.Valid() && InPhase(t.rules, t.vault.View(), id, m, before) && (a.TryPrepare? ==> t.rules.reserved(a.temp))
    modifies t.vault`root, t.vault`steps, t.vault`objects, t.vault`next
    ensures t.Valid() && InPhase(t.rules, t.vault.View(), id, m, after) && t.vault.objects == old(t.vault.objects)
    ensures FileIn(t.vault.root, id, m, after) == old(FileIn(t.vault.root, id, m, before))
  {
    after := before;
    match a {
      case TryPrepare(temp) =>
        var _ := PrepareOn(t, id, m, temp, before);
      case TryStage =>
        var o;
        o, after := StageOn(t, id, m, before);
      case TryPublish =>
        var o;
        o, after := PublishOn(t, id, m, before);
    }
  }

  /** Only an item in the trash can be restored, and then it is. */
  lemma RestoreMoved(r: Rules, pre: State, post: State, id: string, destination: Path, digest: string)
    requires r.Lawful() && RestoreReady(r, pre, id, destination, digest) && RestoreClear(r.naming, pre.root, id, destination)
    requires RestoredTo(r, pre, post, id, destination)
    ensures RestoreDone(r, post, id, destination, digest) && RestoreClear(r.naming, post.root, id, destination)
  {
    var m: Manifest :| m.original == destination && RestoreStep(r, pre, post, id, m);
    var ready: Manifest :| ready.original == destination && ItemValid(r, pre, Items, id, digest, Required, ready);
    BoundUnique(r, pre, Items, id, m, ready);
    RestoredValid(r, pre, id, digest, m);
    RestoreKeepsWays(r, pre, post, id, m);
  }

  /** Restoring again, in the same way. */
  method RestoreAgain(t: TrashStore, id: string, destination: Path, digest: string)
    returns (first: Outcome<RestoreItemOutcome>, second: Outcome<RestoreItemOutcome>)
    requires t.Valid() && Classify(t.vault.naming, destination) == Content && RestoreClear(t.vault.naming, t.vault.root, id, destination)
    requires RestoreReady(t.rules, t.vault.View(), id, destination, digest)
    modifies t.vault`root, t.vault`steps, t.vault`calm
    ensures t.Valid() && RestoredTo(t.rules, old(t.vault.View()), t.vault.View(), id, destination)
    ensures RestoreDone(t.rules, t.vault.View(), id, destination, digest) && RestoreClear(t.vault.naming, t.vault.root, id, destination)
    ensures first.Done? ==> first.value.Restored? && second == Done(AlreadyRestored(FullySynced))
    ensures old(t.vault.calm) ==> first == Done(Restored(FullySynced))
    ensures first.Failed? && first.error != VerifiedMoveOutcomeUnknown ==> second == Done(Restored(FullySynced))
    ensures second == Done(Restored(FullySynced)) || second == Done(AlreadyRestored(FullySynced))
  {
    var log;
    ghost var start := t.vault.View();
    first, log := t.RestoreItem(id, destination, digest);
    ghost var middle := t.vault.View();
    if middle != start { RestoreMoved(t.rules, start, middle, id, destination, digest); }
    t.vault.Calm();
    second, log := t.RestoreItem(id, destination, digest);
    if middle == start { RestoreMoved(t.rules, middle, t.vault.View(), id, destination, digest); }
  }

  // ----- Prepare

  /** What a prepare adds above the item directories are the containers. */
  lemma PrepareNewAbove(r: Rules, pre: State, post: State, id: string, m: Manifest, temp: string, q: Path)
    requires PrepareStep(r, pre, post, id, m, temp) && |q| <= 3 && At(pre.root, q) == Absent && At(post.root, q) != Absent
    ensures q == [".trash"] || q == [".trash", "v1"] || q == AreaPath(Staging) || q == AreaPath(Items)
  {
    assert |ItemDir(Staging, id)| == 4 && |ItemPath(Staging, id, temp)| == 5 && |ManifestPath(Staging, id)| == 5;
  }

  /** Preparing keeps the ways to both containers clear. */
  lemma PrepareKeepsAreas(r: Rules, pre: State, post: State, id: string, m: Manifest, temp: string, a: TrashArea)
    requires r.Lawful() && PrepareStep(r, pre, post, id, m, temp) && Clear(r.naming, pre.root, AreaPath(a))
    ensures Clear(r.naming, post.root, AreaPath(a))
  {
    var n, p := r.naming, AreaPath(a);
    forall i, x | 0 <= i < 3 && At(post.root, p[..i] + [x]) != Absent && n.key(x) == n.key(p[i]) ensures x == p[i] {
      assert NoCollision(n, pre.root, p[..i], p[i]);
      var q := p[..i] + [x];
      assert |q| == i + 1 && q[i] == x;
      if At(pre.root, q) == Absent {
        PrepareNewAbove(r, pre, post, id, m, temp, q);
      }
    }
  }

  /** A file that is where the manifest says, an id that is new, and nothing in the way. */
  ghost predicate Trashable(r: Rules, s: State, id: string, m: Manifest) {
    && PrepareRequestOk(r, id, m) && Exact(r.hash, s, m.original, m.revision) && Clear(r.naming, s.root, m.original)
    && ContainersFree(r.naming, s.root) && At(s.root, ItemDir(Staging, id)) == Absent && At(s.root, ItemDir(Items, id)) == Absent
    && NoCollision(r.naming, s.root, AreaPath(Staging), id) && NoCollision(r.naming, s.root, AreaPath(Items), id)
  }

  /** A freshly prepared item directory is a valid one without a payload. */
  lemma PreparedIsReady(r: Rules, s: State, id: string, m: Manifest)
    requires r.Lawful() && WellFormed(s) && PrepareDone(r, s, id, m, Prepared)
    ensures ItemValid(r, s, Staging, id, DigestOf(r, m), MustBeAbsent, m) && PrepareDone(r, s, id, m, AlreadyPrepared)
  {
    ItemNames(s.root, Staging, id);
    assert TempNames(r, s.root, Staging, id) == {};
    PrefixIsDir(s.root, ManifestPath(Staging, id), 4);
    assert ManifestPath(Staging, id)[..4] == ItemDir(Staging, id);
    assert "payload"[0] != "manifest.json"[0];
  }

  lemma PrepareNew(r: Rules, pre: State, post: State, id: string, m: Manifest, temp: string)
    requires PrepareStep(r, pre, post, id, m, temp)
    ensures NewBelow(pre.root, post.root, [".trash"])
  {
  }

  /** Preparing leaves the source as it was. */
  lemma PrepareKeepsSource(r: Rules, pre: State, post: State, id: string, m: Manifest, temp: string)
    requires r.Lawful() && PrepareStep(r, pre, post, id, m, temp) && Trashable(r, pre, id, m)
    ensures Exact(r.hash, post, m.original, m.revision) && Clear(r.naming, post.root, m.original)
    ensures At(post.root, Parent(m.original)) == IsDir
  {
    PrepareNew(r, pre, post, id, m, temp);
    ContentBesideTrash(r.naming, m.original, [".trash"]);
    StillClear(r.naming, pre.root, post.root, [".trash"], m.original);
    PrefixIsDir(post.root, m.original, |m.original| - 1);
  }

  /** After a fresh prepare nothing is in the way of the later calls. */
  lemma PreparedWays(r: Rules, pre: State, post: State, id: string, m: Manifest, temp: string)
    requires r.Lawful() && PrepareStep(r, pre, post, id, m, temp) && Trashable(r, pre, id, m)
    requires PrepareDone(r, post, id, m, Prepared) && At(post.root, AreaPath(Staging)) == IsDir && At(post.root, AreaPath(Items)) == IsDir
    ensures WaysClear(r.naming, post.root, id, m.original) && Exact(r.hash, post, m.original, m.revision)
  {
    PrepareKeepsSource(r, pre, post, id, m, temp);
    PreparedItemDir(r, pre, post, id, m, temp, Staging);
    PreparedItemDir(r, pre, post, id, m, temp, Items);
    PayloadNameFree(r, post, id, m);
  }

  lemma PayloadNameFree(r: Rules, s: State, id: string, m: Manifest)
    requires r.Lawful() && PrepareDone(r, s, id, m, Prepared) && Clear(r.naming, s.root, ItemDir(Staging, id))
    ensures Clear(r.naming, s.root, Payload(Staging, id))
  {
    forall x ensures At(s.root, ItemDir(Staging, id) + [x]) == Absent || x == "manifest.json" {
      assert ItemDir(Staging, id) + [x] == ItemPath(Staging, id, x);
    }
    assert Parent(Payload(Staging, id)) == ItemDir(Staging, id);
    ClearAll(r.naming, s.root, Payload(Staging, id));
  }

  lemma PreparedIdFree(r: Rules, pre: State, post: State, id: string, m: Manifest, temp: string, a: TrashArea)
    requires PrepareStep(r, pre, post, id, m, temp) && NoCollision(r.naming, pre.root, AreaPath(a), id)
    ensures NoCollision(r.naming, post.root, AreaPath(a), id)
  {
    forall x | At(post.root, AreaPath(a) + [x]) != Absent && r.naming.key(x) == r.naming.key(id) ensures x == id {
      var q := AreaPath(a) + [x];
      assert |q| == 4 && q[3] == x;
      assert At(post.root, q) == At(pre.root, q) || q == ItemDir(Staging, id);
    }
  }

  lemma PreparedItemDir(r: Rules, pre: State, post: State, id: string, m: Manifest, temp: string, a: TrashArea)
    requires r.Lawful() && PrepareStep(r, pre, post, id, m, temp)
    requires Clear(r.naming, pre.root, AreaPath(a)) && NoCollision(r.naming, pre.root, AreaPath(a), id)
    ensures Clear(r.naming, post.root, AreaPath(a)) && Clear(r.naming, post.root, ItemDir(a, id))
  {
    PreparedIdFree(r, pre, post, id, m, temp, a);
    PrepareKeepsAreas(r, pre, post, id, m, temp, a);
    assert Parent(ItemDir(a, id)) == AreaPath(a);
    ClearAll(r.naming, post.root, ItemDir(a, id));
  }

  /** So the item is on its way. */
  lemma PreparedPhase(r: Rules, pre: State, post: State, id: string, m: Manifest, temp: string)
    requires r.Lawful() && WellFormed(post) && PrepareStep(r, pre, post, id, m, temp) && Trashable(r, pre, id, m)
    requires PrepareDone(r, post, id, m, Prepared) && At(post.root, AreaPath(Staging)) == IsDir && At(post.root, AreaPath(Items)) == IsDir
    ensures InPhase(r, post, id, m, AtSource)
  {
    PreparedWays(r, pre, post, id, m, temp);
    PreparedIsReady(r, post, id, m);
  }

  /** Preparing again: once a prepare succeeded, an undisturbed one recognises it and changes
      nothing. `between` is the state after the first call. */
  method PrepareAgain(t: TrashStore, id: string, m: Manifest, temp: string, other: string)
    returns (first: Outcome<PrepareManifestOutcome>, second: Outcome<PrepareManifestOutcome>, ghost between: State)
    requires t.Valid() && t.rules.reserved(temp) && t.rules.reserved(other)
    requires PrepareRequestOk(t.rules, id, m) && ContainersFree(t.vault.naming, t.vault.root)
    modifies t.vault`root, t.vault`steps, t.vault`objects, t.vault`next, t.vault`calm
    ensures t.Valid() && PrepareStep(t.rules, old(t.vault.View()), between, id, m, temp)
    ensures first.Done? ==> t.vault.View() == between
    ensures first.Done? ==> second == Done(if first.value == PreparedAlreadyPublished then PreparedAlreadyPublished else AlreadyPrepared)
  {
    first := t.PrepareManifest(id, m, temp);
    between := t.vault.View();
    if first.Done? {
      PrepareKeepsAreas(t.rules, old(t.vault.View()), between, id, m, temp, Staging);
      PrepareKeepsAreas(t.rules, old(t.vault.View()), between, id, m, temp, Items);
      ExistingIsCreatable(t.vault.naming, t.vault.root, AreaPath(Staging));
      ExistingIsCreatable(t.vault.naming, t.vault.root, AreaPath(Items));
      if first.value == Prepared { PreparedIsReady(t.rules, between, id, m); }
    }
    t.vault.Calm();
    second := t.PrepareManifest(id, m, other);
  }
}
