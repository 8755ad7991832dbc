// crates/myvault-core/src/vault.rs: directory creation, no-replace creation, atomic write,
// compare-and-replace and the general atomic move, with what they keep true of the tree.

module Mutations {
  import opened Wrappers
  import opened Tree
  import opened Paths
  import opened Disk
  import opened VaultCore

  /** Everything that existed is still there, unchanged, with the same bytes. */
  ghost predicate Preserves(pre: State, post: State) {
    && (forall q :: At(pre.root, q) != Absent ==> At(post.root, q) == At(pre.root, q))
    && (forall o :: o in pre.objects ==> o in post.objects && post.objects[o] == pre.objects[o])
  }

  /** The only difference is that missing directories on the way to `p` now exist. */
  ghost predicate DirsAdded(pre: Node, post: Node, p: Path) {
    forall q :: At(post, q) == At(pre, q) || (q != [] && q <= p && At(pre, q) == Absent && At(post, q) == IsDir)
  }

  /** Adding an entry whose key no sibling has keeps siblings apart. */
  lemma AddKeepsDistinct(n: Naming, pre: Node, post: Node, p: Path, e: Entry)
    requires p != [] && SiblingsDistinct(n, pre) && NoCollision(n, pre, Parent(p), Leaf(p)) && Shows(pre, post, p, e)
    ensures SiblingsDistinct(n, post)
  {
    forall d, x, y | At(post, d + [x]) != Absent && At(post, d + [y]) != Absent && n.key(x) == n.key(y) ensures x == y {
      NameInParent(d, x, p);
      NameInParent(d, y, p);
    }
  }

  lemma NameInParent(d: Path, x: string, p: Path)
    requires p != []
    ensures d + [x] == p <==> Parent(p) == d && Leaf(p) == x
  {
    assert p == Parent(p) + [Leaf(p)];
  }

  /** Moving anything, a file or a whole directory, to a name no sibling collides with keeps
      siblings apart everywhere. */
  lemma MoveKeepsDistinct(n: Naming, root: Node, s: Path, d: Path)
    requires SiblingsDistinct(n, root) && CanRename(root, s, d) && NoCollision(n, root, Parent(d), Leaf(d))
    ensures SiblingsDistinct(n, Rename(root, s, d))
  {
    var post := Rename(root, s, d);
    forall e, x, y | At(post, e + [x]) != Absent && At(post, e + [y]) != Absent && n.key(x) == n.key(y) ensures x == y {
      if d <= e {
        MovedInside(root, s, d, e, x);
        MovedInside(root, s, d, e, y);
      } else {
        MovedOutside(root, s, d, e, x);
        MovedOutside(root, s, d, e, y);
      }
    }
  }

  lemma MovedInside(root: Node, s: Path, d: Path, e: Path, x: string)
    requires CanRename(root, s, d) && d <= e
    ensures At(Rename(root, s, d), e + [x]) == At(root, (s + e[|d|..]) + [x])
  {
    RenameAt(root, s, d, e + [x]);
    assert s + (e + [x])[|d|..] == (s + e[|d|..]) + [x];
  }

  lemma MovedOutside(root: Node, s: Path, d: Path, e: Path, x: string)
    requires CanRename(root, s, d) && !(d <= e) && At(Rename(root, s, d), e + [x]) != Absent
    ensures At(root, e + [x]) != Absent || (e == Parent(d) && x == Leaf(d))
  {
    RenameAt(root, s, d, e + [x]);
    OneLevel(d, e, x);
  }

  lemma OneLevel(d: Path, e: Path, x: string)
    requires d != [] && !(d <= e)
    ensures d <= e + [x] ==> Parent(d) == e && Leaf(d) == x
  {
    assert |d| <= |e| ==> (e + [x])[..|d|] == e[..|d|];
  }

  // ----- Directory creation

  /** Between the two traces only directories were made, each followed at once by a successful
      flush of its parent. */
  ghost predicate MadeDurably(start: Trace, now: Trace)
    decreases now
  {
    now == start ||
    (&& now.Then? && now.before.Then? && now.before.step.Make? && now.step.Flush? && now.step.result.Synced?
     && now.before.step.path != [] && now.step.path == Parent(now.before.step.path) && MadeDurably(start, now.before.before))
  }

  /** One component: refuse a colliding sibling, create the directory or find it, open it. */
  method EnsureChild(v: Vault, d: Path, name: string) returns (r: Outcome<()>)
    requires v.Valid() && At(v.root, d) == IsDir
    modifies v`root, v`steps
    ensures v.Valid()
    ensures forall start {:trigger MadeDurably(start, old(v.steps))} ::
              r.Done? && MadeDurably(start, old(v.steps)) ==> MadeDurably(start, v.steps)
    ensures v.root == old(v.root) || (At(old(v.root), d + [name]) == Absent && Shows(old(v.root), v.root, d + [name], IsDir))
    ensures SiblingsDistinct(v.naming, old(v.root)) ==> SiblingsDistinct(v.naming, v.root)
    ensures r.Done? ==> At(v.root, d + [name]) == IsDir && NoCollision(v.naming, old(v.root), d, name)
    ensures v.calm && NoCollision(v.naming, old(v.root), d, name) && At(old(v.root), d + [name]) == IsDir ==> r.Done? && v.root == old(v.root)
    ensures v.calm && NoCollision(v.naming, old(v.root), d, name) && At(old(v.root), d + [name]) == Absent ==> r.Done?
  {
    var p := d + [name];
    assert Parent(p) == d && Leaf(p) == name;
    var c := v.RejectSiblingCollision(d, name);
    if c.Err? { return Failed(c.error); }
    var stop := v.Fault();
    if stop { return Stopped; }
    c := v.MakeDir(p);
    if c.Ok? {
      if SiblingsDistinct(v.naming, old(v.root)) {
        AddKeepsDistinct(v.naming, old(v.root), v.root, p, IsDir);
      }
      var sync := v.Sync(d);
      if sync.SyncFailed? { return Failed(Io); }
    } else if c.error != AlreadyExists {
      return Failed(c.error);
    }
    var bad := v.Fault();
    if bad || At(v.root, p) != IsDir { return Failed(SymlinkRejected); }
    return Done(());
  }

  /** Nothing stands in the way of the directories on the way to `p`. */
  ghost predicate Creatable(n: Naming, root: Node, p: Path) {
    Clear(n, root, p) && forall i :: 0 < i <= |p| ==> At(root, p[..i]) == Absent || At(root, p[..i]) == IsDir
  }

  /** Directories added on the way keep the rest of the way free. */
  lemma NextFree(n: Naming, pre: Node, now: Node, p: Path, i: nat)
    requires i < |p| && DirsAdded(pre, now, p)
    ensures Creatable(n, pre, p) ==>
              NoCollision(n, now, p[..i], p[i]) && (At(now, p[..i] + [p[i]]) == Absent || At(now, p[..i] + [p[i]]) == IsDir)
  {
    assert p[..i + 1] == p[..i] + [p[i]];
    if Creatable(n, pre, p) {
      assert NoCollision(n, pre, p[..i], p[i]);
      forall x | At(now, p[..i] + [x]) != Absent && n.key(x) == n.key(p[i]) ensures x == p[i] {
        if At(pre, p[..i] + [x]) == Absent {
          assert p[..i] + [x] <= p && (p[..i] + [x])[i] == x;
        }
      }
    }
  }

  lemma StillClearWay(n: Naming, pre: Node, now: Node, p: Path)
    requires DirsAdded(pre, now, p) && Creatable(n, pre, p)
    ensures Clear(n, now, p)
  {
    forall i | 0 <= i < |p| ensures NoCollision(n, now, p[..i], p[i]) {
      NextFree(n, pre, now, p, i);
    }
  }

  /** The first `i` components of `p` are directories now, and nothing else was added. */
  ghost predicate OnTheWay(pre: Node, now: Node, p: Path, i: nat)
    requires i <= |p|
  {
    DirsAdded(pre, now, p) && At(now, p[..i]) == IsDir
  }

  lemma OneFurther(pre: Node, now: Node, next: Node, p: Path, i: nat)
    requires i < |p| && OnTheWay(pre, now, p, i) && At(next, p[..i] + [p[i]]) == IsDir
    requires next == now || (At(now, p[..i] + [p[i]]) == Absent && Shows(now, next, p[..i] + [p[i]], IsDir))
    ensures OnTheWay(pre, next, p, i + 1)
  {
    assert p[..i + 1] == p[..i] + [p[i]];
  }

  /** Nothing is added on the way to a directory that exists. */
  lemma NothingAdded(pre: Node, post: Node, p: Path)
    requires DirsAdded(pre, post, p) && At(pre, p) == IsDir
    ensures post == pre
  {
    forall q ensures At(post, q) == At(pre, q) {
      if q <= p && q != p {
        PrefixIsDir(pre, p, |q|);
        assert p[..|q|] == q;
      }
    }
    SameTree(post, pre);
  }

  method CreateDirectories(v: Vault, p: Path) returns (r: Outcome<()>)
    requires v.Valid()
    modifies v`root, v`steps
    ensures v.Valid()
    ensures DirsAdded(old(v.root), v.root, p)
    ensures r.Done? ==> At(v.root, p) == IsDir && MadeDurably(old(v.steps), v.steps)
    ensures SiblingsDistinct(v.naming, old(v.root)) ==> SiblingsDistinct(v.naming, v.root)
    ensures At(old(v.root), p) == IsDir ==> v.root == old(v.root)
    ensures v.calm && Creatable(v.naming, old(v.root), p) ==> r.Done?
  {
    r := Done(());
    var i := 0;
    while i < |p| && r.Done?
      invariant 0 <= i <= |p| && v.Valid()
      invariant r.Done? ==> MadeDurably(old(v.steps), v.steps)
      invariant if r.Done? then OnTheWay(old(v.root), v.root, p, i) else DirsAdded(old(v.root), v.root, p)
      invariant SiblingsDistinct(v.naming, old(v.root)) ==> SiblingsDistinct(v.naming, v.root)
      invariant v.calm && Creatable(v.naming, old(v.root), p) ==> r.Done?
      decreases |p| - i, r.Done?
    {
      ghost var before := v.root;
      NextFree(v.naming, old(v.root), before, p, i);
      r := EnsureChild(v, p[..i], p[i]);
      if r.Done? {
        OneFurther(old(v.root), before, v.root, p, i);
        i := i + 1;
      } else {
        StillAdded(old(v.root), before, v.root, p, i);
      }
    }
    assert i == |p| ==> p[..i] == p;
    if At(old(v.root), p) == IsDir {
      NothingAdded(old(v.root), v.root, p);
    }
  }

  lemma StillAdded(pre: Node, now: Node, next: Node, p: Path, i: nat)
    requires i < |p| && DirsAdded(pre, now, p)
    requires next == now || (At(now, p[..i] + [p[i]]) == Absent && Shows(now, next, p[..i] + [p[i]], IsDir))
    ensures DirsAdded(pre, next, p)
  {
    assert p[..i + 1] == p[..i] + [p[i]] && p[..i + 1] <= p;
  }

  lemma ExistingIsCreatable(n: Naming, root: Node, p: Path)
    requires At(root, p) == IsDir && Clear(n, root, p)
    ensures Creatable(n, root, p)
  {
    forall i | 0 < i <= |p| ensures At(root, p[..i]) == IsDir {
      if i < |p| {
        PrefixIsDir(root, p, i);
      } else {
        assert p[..i] == p;
      }
    }
  }

  // ----- No-replace creation

  /** A new file with these bytes and one link is at `p`, where there was nothing; apart from
      missing parent directories nothing else is new or changed. */
  ghost predicate Created(pre: State, post: State, p: Path, contents: Bytes)
    requires p != []
  {
    exists middle: Node, o: nat ::
      && DirsAdded(pre.root, middle, Parent(p)) && At(middle, p) == Absent
      && Shows(middle, post.root, p, IsFile(o)) && o !in pre.objects
      && post.objects == pre.objects[o := FileObject(contents, 1)]
  }

  /** A new file can be put at `p`, once missing parents are made. */
  ghost predicate Placeable(n: Naming, root: Node, p: Path)
    requires p != []
  {
    Creatable(n, root, Parent(p)) && NoCollision(n, root, Parent(p), Leaf(p)) && At(root, p) == Absent
  }

  /** New parents leave the directory of `p` as it was. */
  lemma PlaceStays(n: Naming, pre: Node, now: Node, p: Path)
    requires p != [] && DirsAdded(pre, now, Parent(p))
    ensures forall x :: At(now, Parent(p) + [x]) == At(pre, Parent(p) + [x])
    ensures Placeable(n, pre, p) ==> Clear(n, now, Parent(p)) && NoCollision(n, now, Parent(p), Leaf(p)) && At(now, p) == Absent
  {
    forall x ensures At(now, Parent(p) + [x]) == At(pre, Parent(p) + [x]) {
      assert |Parent(p) + [x]| > |Parent(p)|;
    }
    assert p == Parent(p) + [Leaf(p)];
    if Placeable(n, pre, p) {
      StillClearWay(n, pre, now, Parent(p));
    }
  }

  /** Creates the missing parents of `p` and checks that nothing is at `p` or collides with it. */
  method OpenNewPlace(v: Vault, p: Path) returns (r: Outcome<()>)
    requires v.Valid() && p != []
    modifies v`root, v`steps
    ensures v.Valid()
    ensures r.Done? ==> MadeDurably(old(v.steps), v.steps)
    ensures DirsAdded(old(v.root), v.root, Parent(p))
    ensures SiblingsDistinct(v.naming, old(v.root)) ==> SiblingsDistinct(v.naming, v.root)
    ensures r.Done? ==> At(v.root, Parent(p)) == IsDir && At(v.root, p) == Absent && NoCollision(v.naming, v.root, Parent(p), Leaf(p))
    ensures v.calm && Placeable(v.naming, old(v.root), p) ==> r.Done?
  {
    r := Done(());
    if |p| > 1 {
      r := CreateDirectories(v, Parent(p));
    } else {
      assert Parent(p) == [];
    }
    PlaceStays(v.naming, old(v.root), v.root, p);
    if r.Done? {
      var c := CheckNewPlace(v, p);
      if c.Err? { r := Failed(c.error); }
    }
  }

  method CheckNewPlace(v: Vault, p: Path) returns (r: Result<(), Error>)
    requires v.Valid() && p != []
    ensures r.Ok? ==> At(v.root, Parent(p)) == IsDir && At(v.root, p) == Absent && NoCollision(v.naming, v.root, Parent(p), Leaf(p))
    ensures v.calm && At(v.root, Parent(p)) == IsDir && Clear(v.naming, v.root, Parent(p)) &&
            NoCollision(v.naming, v.root, Parent(p), Leaf(p)) && At(v.root, p) == Absent
            ==> r.Ok?
  {
    r := v.OpenParentChecked(p);
    if r.Err? { return; }
    r := v.RejectSiblingCollision(Parent(p), Leaf(p));
    if r.Err? { return; }
    if At(v.root, p) == IsSymlink { return Err(SymlinkRejected); }
    var present := v.EntryExists(p);
    r := if present.Err? then Err(present.error) else if present.value then Err(AlreadyExists) else Ok(());
  }

  /** A file put at a free place behind new parents. */
  lemma CreatedBehind(n: Naming, pre: State, middle: Node, post: State, p: Path, contents: Bytes, o: nat)
    requires p != [] && DirsAdded(pre.root, middle, Parent(p)) && At(middle, p) == Absent && NoCollision(n, middle, Parent(p), Leaf(p))
    requires Shows(middle, post.root, p, IsFile(o)) && o !in pre.objects && post.objects == pre.objects[o := FileObject(contents, 1)]
    ensures Created(pre, post, p, contents)
    ensures SiblingsDistinct(n, middle) ==> SiblingsDistinct(n, post.root)
  {
    if SiblingsDistinct(n, middle) {
      AddKeepsDistinct(n, middle, post.root, p, IsFile(o));
    }
  }

  lemma PreservedBehind(pre: State, middle: State, post: State, q: Path)
    requires DirsAdded(pre.root, middle.root, q) && middle.objects == pre.objects && Preserves(middle, post)
    ensures Preserves(pre, post)
  {
  }

  /** `create_content_from_reader`. The stream is `contents`, the digest function `sha256`, and
      the name of the temporary file is the one the counter gave. */
  method CreateContent(v: Vault, p: Path, contents: Bytes, sha256: Bytes -> string, expectedSha: string,
                       expectedLen: nat, maxBytes: nat, tempName: string) returns (r: Outcome<MoveDurability>)
    requires v.Valid() && p != [] && tempName != Leaf(p)
    modifies v`root, v`objects, v`next, v`steps
    ensures v.Valid()
    ensures Preserves(old(v.View()), v.View())
    ensures r.Done? ==> && Classify(v.naming, p) == Content && sha256(contents) == expectedSha && |contents| == expectedLen <= maxBytes
                        && Created(old(v.View()), v.View(), p, contents)
                        && (SiblingsDistinct(v.naming, old(v.root)) ==> SiblingsDistinct(v.naming, v.root))
    // An error that is not about an uncertain publication leaves no new file at `p`.
    ensures r.Failed? && r.error != CommitOutcomeUnknown && r.error != PublishedCleanupPending ==> At(v.root, p) == At(old(v.root), p)
    ensures v.calm && Classify(v.naming, p) == Content && sha256(contents) == expectedSha && |contents| == expectedLen <= maxBytes &&
            Placeable(v.naming, old(v.root), p) && At(old(v.root), Parent(p) + [tempName]) == Absent &&
            FileRevision(v.hash(contents), |contents|).Valid()
            ==> r == Done(FullySynced)
    ensures Classify(v.naming, p) != Content ==> r == Failed(InvalidMove) && v.View() == old(v.View())
    ensures Classify(v.naming, p) == Content && expectedLen > maxBytes ==> r == Failed(ResourceLimitExceeded) && v.View() == old(v.View())
    // A stream that is not the declared one is told apart, and without a failure no call that
    // does not succeed leaves its temporary file.
    ensures v.calm && Classify(v.naming, p) == Content && expectedLen <= maxBytes && |contents| <= maxBytes &&
            (sha256(contents) != expectedSha || |contents| != expectedLen) &&
            Placeable(v.naming, old(v.root), p) && At(old(v.root), Parent(p) + [tempName]) == Absent
            ==> r == Failed(ContentDigestMismatch)
    ensures v.calm && !r.Done? && FileRevision(v.hash(contents), |contents|).Valid() ==> DirsAdded(old(v.root), v.root, Parent(p))
    // The file was flushed into its directory before the temporary name went, and again after.
    ensures r.Done? ==> PublishedBy(old(v.steps), v.steps, p, Parent(p) + [tempName], r.value)
  {
    if Classify(v.naming, p) != Content { return Failed(InvalidMove); }
    if expectedLen > maxBytes { return Failed(ResourceLimitExceeded); }
    var ready := OpenNewPlace(v, p);
    PlaceStays(v.naming, old(v.root), v.root, p);
    assert p == Parent(p) + [Leaf(p)];
    ghost var middle, flushed := v.View(), v.steps;
    if !ready.Done? { return if ready.Stopped? then Stopped else Failed(ready.error); }
    var temp := Parent(p) + [tempName];
    assert temp != p && Leaf(temp) == tempName && Parent(temp) == Parent(p);
    ghost var o;
    r, o := PublishNew(v, p, temp, contents, sha256, expectedSha, expectedLen, maxBytes);
    PreservedBehind(old(v.View()), middle, v.View(), Parent(p));
    if r.Done? {
      ghost var e :| v.steps == Published(flushed, p, temp, r.value, e);
      CreatedBehind(v.naming, old(v.View()), middle.root, v.View(), p, contents, o);
    }
  }

  /** The last steps were: a second name for the temporary file, a flush of the directory with
      this result, the end of the temporary name, and another flush. */
  ghost predicate PublishedBy(start: Trace, now: Trace, p: Path, temp: Path, d: MoveDurability)
    requires p != []
  {
    exists middle, e :: MadeDurably(start, middle) && now == Published(middle, p, temp, d, e)
  }

  function Published(t: Trace, p: Path, temp: Path, d: MoveDurability, e: MoveDurability): Trace
    requires p != []
  {
    Settled(Then(t, Link(temp, p)), p, temp, d, e)
  }

  /** The part that writes: temporary file, digest check, link, unlink, readback. */
  method PublishNew(v: Vault, p: Path, temp: Path, contents: Bytes, sha256: Bytes -> string, expectedSha: string,
                    expectedLen: nat, maxBytes: nat) returns (r: Outcome<MoveDurability>, ghost o: nat)
    requires v.Valid() && p != [] && temp != [] && temp != p && Parent(temp) == Parent(p)
    requires At(v.root, Parent(p)) == IsDir && At(v.root, p) == Absent
    modifies v`root, v`objects, v`next, v`steps
    ensures v.Valid()
    ensures Preserves(old(v.View()), v.View())
    ensures r.Done? ==> && sha256(contents) == expectedSha && |contents| == expectedLen <= maxBytes
                        && o !in old(v.objects) && Shows(old(v.root), v.root, p, IsFile(o))
                        && v.objects == old(v.objects)[o := FileObject(contents, 1)]
    ensures r.Failed? && r.error != CommitOutcomeUnknown && r.error != PublishedCleanupPending ==> At(v.root, p) == Absent
    ensures v.calm && (sha256(contents) != expectedSha || |contents| != expectedLen) && |contents| <= maxBytes && At(old(v.root), temp) == Absent
            ==> r == Failed(ContentDigestMismatch)
    ensures v.calm && !r.Done? && FileRevision(v.hash(contents), |contents|).Valid() ==> v.root == old(v.root)
    ensures r.Done? ==> exists e :: v.steps == Published(old(v.steps), p, temp, r.value, e)
    ensures v.calm && sha256(contents) == expectedSha && |contents| == expectedLen <= maxBytes && At(old(v.root), temp) == Absent &&
            FileRevision(v.hash(contents), |contents|).Valid()
            ==> r == Done(FullySynced)
  {
    o := 0;
    var staged := StageNew(v, temp, contents, sha256, expectedSha, expectedLen, maxBytes);
    if !staged.Done? { return if staged.Stopped? then Stopped else Failed(staged.error), o; }
    o := staged.value;
    var linked := LinkNew(v, p, temp);
    if linked.Err? { return Failed(linked.error), o; }
    r := SettleNew(v, p, temp, contents);
    if r.Done? {
      ghost var e :| v.steps == Settled(Then(old(v.steps), Link(temp, p)), p, temp, r.value, e);
      assert v.steps == Published(old(v.steps), p, temp, r.value, e);
    }
  }

  /** Gives the complete temporary file its second name, or removes it. */
  method LinkNew(v: Vault, p: Path, temp: Path) returns (r: Result<(), Error>)
    requires v.Valid() && p != [] && temp != [] && temp != p && At(v.root, Parent(p)) == IsDir && At(v.root, p) == Absent
    requires At(v.root, temp).IsFile? && v.objects[At(v.root, temp).obj].links == 1
    modifies v`root, v`objects, v`steps
    ensures v.Valid()
    ensures r.Ok? ==> && Shows(old(v.root), v.root, p, At(old(v.root), temp)) && v.steps == Then(old(v.steps), Link(temp, p))
                      && var o := At(old(v.root), temp).obj; v.objects == old(v.objects)[o := FileObject(old(v.objects)[o].bytes, 2)]
    ensures r.Err? ==> (v.root == old(v.root) || Shows(old(v.root), v.root, temp, Absent)) &&
                       forall o :: o in old(v.objects) && o != At(old(v.root), temp).obj ==> o in v.objects && v.objects[o] == old(v.objects)[o]
    ensures v.calm ==> r.Ok?
  {
    r := v.HardLink(temp, p);
    if r.Err? {
      var _ := v.RemoveFile(temp);
    }
  }

  /** Fills the temporary file and checks it; a stream that is not the declared one is removed. */
  method StageNew(v: Vault, temp: Path, contents: Bytes, sha256: Bytes -> string, expectedSha: string,
                  expectedLen: nat, maxBytes: nat) returns (r: Outcome<nat>)
    requires v.Valid() && temp != [] && At(v.root, Parent(temp)) == IsDir
    modifies v`root, v`objects, v`next, v`steps
    ensures v.Valid()
    ensures OnlyTemp(old(v.View()), v.View(), temp)
    ensures r.Done? ==> && sha256(contents) == expectedSha && |contents| == expectedLen <= maxBytes
                        && At(old(v.root), temp) == Absent && r.value !in old(v.objects)
                        && Shows(old(v.root), v.root, temp, IsFile(r.value)) && v.objects == old(v.objects)[r.value := FileObject(contents, 1)]
    ensures v.calm && sha256(contents) == expectedSha && |contents| == expectedLen <= maxBytes && At(old(v.root), temp) == Absent &&
            FileRevision(v.hash(contents), |contents|).Valid()
            ==> r.Done?
    ensures v.calm && (sha256(contents) != expectedSha || |contents| != expectedLen) && |contents| <= maxBytes && At(old(v.root), temp) == Absent
            ==> r == Failed(ContentDigestMismatch)
    ensures v.calm && !r.Done? && FileRevision(v.hash(contents), |contents|).Valid() ==> v.root == old(v.root)
    ensures r.Done? ==> v.steps == old(v.steps)
  {
    var created := v.CreateNew(temp);
    if created.Err? { return Failed(created.error); }
    var o := created.value;
    var stop := v.Fault();
    if stop { return Stopped; }
    var c := v.WriteAll(o, contents);
    if c.Err? || |contents| > maxBytes || sha256(contents) != expectedSha || |contents| != expectedLen {
      var error := if c.Err? then c.error else if |contents| > maxBytes then ResourceLimitExceeded else ContentDigestMismatch;
      var removed := v.RemoveFile(temp);
      if removed.Ok? { SameAgain(old(v.root), v.root); }
      return Failed(error);
    }
    c := v.VerifyExpected(temp, FileRevision(v.hash(contents), |contents|), maxBytes);
    if c.Err? { return Failed(c.error); }
    c := v.VerifySingleLink(temp);
    if c.Err? { return Failed(c.error); }
    stop := v.Fault();
    if stop { return Stopped; }
    return Done(o);
  }

  function Settled(t: Trace, p: Path, temp: Path, d: MoveDurability, e: MoveDurability): Trace
    requires p != []
  {
    Then(Then(Then(t, Flush(Parent(p), Synced(d))), Unlink(temp)), Flush(Parent(p), Synced(e)))
  }

  /** A tree that looks like the old one is the old one. */
  lemma SameAgain(pre: Node, post: Node)
    requires forall q :: At(post, q) == At(pre, q)
    ensures post == pre
  {
    SameTree(post, pre);
  }

  /** Flush, drop the temporary name, flush again and read the published file back. */
  method SettleNew(v: Vault, p: Path, temp: Path, contents: Bytes) returns (r: Outcome<MoveDurability>)
    requires v.Valid() && p != [] && temp != [] && temp != p && At(v.root, temp).IsFile? && At(v.root, p) == At(v.root, temp)
    requires v.objects[At(v.root, p).obj] == FileObject(contents, 2)
    modifies v`root, v`objects, v`steps
    ensures v.Valid()
    ensures v.root == old(v.root) || Shows(old(v.root), v.root, temp, Absent)
    ensures v.objects == old(v.objects) || v.objects == Unlinked(old(v.objects), At(old(v.root), temp))
    ensures r.Done? ==> Shows(old(v.root), v.root, temp, Absent) && v.objects == Unlinked(old(v.objects), At(old(v.root), temp))
    ensures r.Failed? ==> r.error == CommitOutcomeUnknown || r.error == PublishedCleanupPending
    ensures v.calm ==> r == Done(FullySynced)
    ensures r.Done? ==> exists e :: v.steps == Settled(old(v.steps), p, temp, r.value, e)
  {
    var stop := v.Fault();
    if stop { return Stopped; }
    var durability := v.Sync(Parent(p));
    if durability.SyncFailed? { return Failed(CommitOutcomeUnknown); }
    var c := v.RemoveFile(temp);
    if c.Err? { return Failed(PublishedCleanupPending); }
    stop := v.Fault();
    if stop { return Stopped; }
    var sync := v.Sync(Parent(p));
    if sync.SyncFailed? { return Failed(PublishedCleanupPending); }
    var readback := v.Fault();
    if readback || !At(v.root, p).IsFile? || v.objects[At(v.root, p).obj] != FileObject(contents, 1) {
      return Failed(CommitOutcomeUnknown);
    }
    assert v.steps == Settled(old(v.steps), p, temp, durability.durability, sync.durability);
    return Done(durability.durability);
  }

  // ----- Atomic write and compare-and-replace

  datatype WriteIntent = Automatic | UserInitiated

  /** The file at `p` is now a new object with these bytes; whatever was there, which is neither
      a directory nor a link, lost that name, and nothing else changed. */
  ghost predicate Written(pre: State, post: State, p: Path, contents: Bytes) {
    && At(pre.root, p) != IsDir && At(pre.root, p) != IsSymlink
    && exists o :: o !in pre.objects && Shows(pre.root, post.root, p, IsFile(o)) &&
                   post.objects == Unlinked(pre.objects, At(pre.root, p))[o := FileObject(contents, 1)]
  }

  /** At most a leftover temporary file is new. */
  ghost predicate OnlyTemp(pre: State, post: State, temp: Path) {
    && (forall q :: q != temp ==> At(post.root, q) == At(pre.root, q))
    && (At(pre.root, temp) != Absent ==> At(post.root, temp) == At(pre.root, temp))
    && (forall o :: o in pre.objects ==> o in post.objects && post.objects[o] == pre.objects[o])
  }

  predicate PolicyAllows(n: Naming, p: Path, intent: WriteIntent) {
    Classify(n, p) == Content || (Classify(n, p) == ObsidianMetadata && intent == UserInitiated)
  }

  function Denial(n: Naming, p: Path): Error {
    if Classify(n, p) == Trash then TrashWriteDenied else AutomaticObsidianWriteDenied
  }

  /** What the policy refuses: everything in the trash, and automatic writes to metadata, whatever
      the spelling of the two names. */
  ghost function Refused(n: Naming, p: Path, intent: WriteIntent): Option<Error>
    requires p != []
  {
    if n.key(p[0]) == ".trash" then Some(TrashWriteDenied)
    else if n.key(p[0]) == ".obsidian" && intent == Automatic then Some(AutomaticObsidianWriteDenied)
    else None
  }

  /** `create_directories` */
  method CreateDirectoriesFor(v: Vault, p: Path, intent: WriteIntent) returns (r: Outcome<()>)
    requires v.Valid() && p != []
    modifies v`root, v`steps
    ensures v.Valid() && DirsAdded(old(v.root), v.root, p)
    ensures r.Done? ==> At(v.root, p) == IsDir && MadeDurably(old(v.steps), v.steps)
    ensures Refused(v.naming, p, intent).Some? ==> r == Failed(Refused(v.naming, p, intent).value) && v.View() == old(v.View())
    ensures v.calm && Refused(v.naming, p, intent).None? && Creatable(v.naming, old(v.root), p) ==> r.Done?
  {
    if !PolicyAllows(v.naming, p, intent) {
      return Failed(Denial(v.naming, p));
    }
    r := CreateDirectories(v, p);
  }

  /** Writing to a name that collides with no sibling keeps siblings apart. */
  lemma WriteKeepsDistinct(n: Naming, pre: State, post: State, p: Path, contents: Bytes)
    requires p != [] && Written(pre, post, p, contents) && NoCollision(n, pre.root, Parent(p), Leaf(p))
    ensures SiblingsDistinct(n, pre.root) ==> SiblingsDistinct(n, post.root)
  {
    var o :| o !in pre.objects && Shows(pre.root, post.root, p, IsFile(o));
    if SiblingsDistinct(n, pre.root) {
      AddKeepsDistinct(n, pre.root, post.root, p, IsFile(o));
    }
  }

  /** The name can be written: its parents are there, nothing collides, and neither a directory
      nor a link is in its place. */
  ghost predicate Writable(n: Naming, root: Node, p: Path)
    requires p != []
  {
    At(root, Parent(p)) == IsDir && Clear(n, root, p) && At(root, p) != IsDir && At(root, p) != IsSymlink
  }

  /** `atomic_write`. */
  method AtomicWrite(v: Vault, p: Path, contents: Bytes, intent: WriteIntent, tempName: string) returns (r: Outcome<()>)
    requires v.Valid() && p != [] && tempName != Leaf(p)
    modifies v`root, v`objects, v`next, v`steps
    ensures v.Valid()
    ensures var temp := Parent(p) + [tempName];
            OnlyTemp(old(v.View()), v.View(), temp) ||
            (At(old(v.root), temp) == Absent && Written(old(v.View()), v.View(), p, contents))
    ensures r.Done? ==> Written(old(v.View()), v.View(), p, contents) &&
                        (SiblingsDistinct(v.naming, old(v.root)) ==> SiblingsDistinct(v.naming, v.root))
    ensures Refused(v.naming, p, intent).Some? ==> r == Failed(Refused(v.naming, p, intent).value) && v.View() == old(v.View())
    ensures v.calm && Refused(v.naming, p, intent).None? && Writable(v.naming, old(v.root), p) &&
            At(old(v.root), Parent(p) + [tempName]) == Absent
            ==> r.Done?
    ensures v.calm && !r.Done? ==> v.root == old(v.root)
    ensures r.Done? ==> RenamedAndFlushed(old(v.steps), v.steps, p, Parent(p) + [tempName])
  {
    if !PolicyAllows(v.naming, p, intent) {
      return Failed(Denial(v.naming, p));
    }
    var c := CheckWritable(v, p);
    if c.Err? { return Failed(c.error); }
    r := WriteThrough(v, p, Parent(p) + [tempName], contents);
    if r.Done? {
      WriteKeepsDistinct(v.naming, old(v.View()), v.View(), p, contents);
    }
  }

  /** The last two steps: the rename over the target and a successful flush of its directory. */
  ghost predicate RenamedAndFlushed(start: Trace, now: Trace, p: Path, temp: Path)
    requires p != []
  {
    exists e :: now == Then(Then(start, Move(temp, p)), Flush(Parent(p), Synced(e)))
  }

  method CheckWritable(v: Vault, p: Path) returns (r: Result<(), Error>)
    requires v.Valid() && p != []
    ensures r.Ok? ==> At(v.root, Parent(p)) == IsDir && NoCollision(v.naming, v.root, Parent(p), Leaf(p)) && At(v.root, p) != IsSymlink
    ensures v.calm && Writable(v.naming, v.root, p) ==> r.Ok?
  {
    if Clear(v.naming, v.root, p) { ClearParent(v.naming, v.root, p); }
    r := v.OpenParentChecked(p);
    if r.Err? { return; }
    r := v.RejectSiblingCollision(Parent(p), Leaf(p));
    if r.Err? { return; }
    if At(v.root, p) == IsSymlink { return Err(SymlinkRejected); }
  }

  /** Temporary file, rename over the target, flush. */
  method WriteThrough(v: Vault, p: Path, temp: Path, contents: Bytes) returns (r: Outcome<()>)
    requires v.Valid() && p != [] && temp != [] && temp != p && Parent(temp) == Parent(p) && At(v.root, Parent(p)) == IsDir
    requires At(v.root, p) != IsSymlink
    modifies v`root, v`objects, v`next, v`steps
    ensures v.Valid()
    ensures OnlyTemp(old(v.View()), v.View(), temp) ||
            (At(old(v.root), temp) == Absent && Written(old(v.View()), v.View(), p, contents))
    ensures r.Done? ==> Written(old(v.View()), v.View(), p, contents) && RenamedAndFlushed(old(v.steps), v.steps, p, temp)
    ensures v.calm && At(old(v.root), p) != IsDir && At(old(v.root), temp) == Absent ==> r.Done?
    ensures v.calm && !r.Done? ==> v.root == old(v.root)
  {
    var w := WriteTemp(v, temp, contents);
    if !w.Done? { return if w.Stopped? then Stopped else Failed(w.error); }
    var c := v.RenameOver(temp, p);
    if c.Err? {
      var removed := v.RemoveFile(temp);
      if removed.Ok? { SameAgain(old(v.root), v.root); }
      return Failed(c.error);
    }
    OverWritten(old(v.View()), v.View(), p, temp, w.value, contents);
    var stop := v.Fault();
    if stop { return Stopped; }
    var sync := v.Sync(Parent(p));
    if sync.SyncFailed? { return Failed(Io); }
    assert v.steps == Then(Then(old(v.steps), Move(temp, p)), Flush(Parent(p), Synced(sync.durability)));
    return Done(());
  }

  method WriteTemp(v: Vault, temp: Path, contents: Bytes) returns (r: Outcome<nat>)
    requires v.Valid() && temp != []
    modifies v`root, v`objects, v`next, v`steps
    ensures v.Valid()
    ensures OnlyTemp(old(v.View()), v.View(), temp)
    ensures r.Done? ==> At(old(v.root), temp) == Absent && r.value !in old(v.objects) &&
                        Shows(old(v.root), v.root, temp, IsFile(r.value)) &&
                        v.objects == old(v.objects)[r.value := FileObject(contents, 1)]
    ensures v.calm && At(old(v.root), temp) == Absent && At(old(v.root), Parent(temp)) == IsDir ==> r.Done?
    ensures r.Done? ==> v.steps == old(v.steps)
    ensures v.calm && !r.Done? ==> v.root == old(v.root)
  {
    var created := v.CreateNew(temp);
    if created.Err? { return Failed(created.error); }
    var stop := v.Fault();
    if stop { return Stopped; }
    var c := v.WriteAll(created.value, contents);
    if c.Err? {
      var _ := v.RemoveFile(temp);
      return Failed(c.error);
    }
    stop := v.Fault();
    if stop { return Stopped; }
    return Done(created.value);
  }

  lemma OverWritten(pre: State, post: State, p: Path, temp: Path, o: nat, contents: Bytes)
    requires WellFormed(pre) && p != temp && At(pre.root, temp) == Absent && o !in pre.objects
    requires At(pre.root, p) != IsDir && At(pre.root, p) != IsSymlink
    requires post.objects == Unlinked(pre.objects[o := FileObject(contents, 1)], At(pre.root, p))
    requires forall q :: At(post.root, q) == if q == p then IsFile(o) else if q == temp then Absent else At(pre.root, q)
    ensures Written(pre, post, p, contents)
  {
    assert Shows(pre.root, post.root, p, IsFile(o));
    assert post.objects == Unlinked(pre.objects, At(pre.root, p))[o := FileObject(contents, 1)];
  }

  /** `replace_content_file_with_hooks`: both checks of the expected revision happen under the
      mutation lock, the second right before the rename. */
  method ReplaceContent(v: Vault, p: Path, expected: FileRevision, contents: Bytes, maxBytes: nat, tempName: string)
    returns (r: Outcome<MoveDurability>)
    requires v.Valid() && p != [] && tempName != Leaf(p)
    modifies v`root, v`objects, v`next, v`steps
    ensures v.Valid()
    // Either the old file stays, or exactly the expected one was replaced.
    ensures OnlyTemp(old(v.View()), v.View(), Parent(p) + [tempName]) ||
            (Exact(v.hash, old(v.View()), p, expected) && Written(old(v.View()), v.View(), p, contents) &&
             (r.Done? || r.Stopped? || r == Failed(ReplaceContentOutcomeUnknown)))
    ensures r.Done? ==> Exact(v.hash, old(v.View()), p, expected) && Written(old(v.View()), v.View(), p, contents) &&
                        (SiblingsDistinct(v.naming, old(v.root)) ==> SiblingsDistinct(v.naming, v.root))
    ensures v.calm && Classify(v.naming, p) == Content && expected.Valid() && expected.byteLen <= maxBytes && |contents| <= maxBytes &&
            FileRevision(v.hash(contents), |contents|).Valid() && At(old(v.root), Parent(p)) == IsDir && Clear(v.naming, old(v.root), p) &&
            Exact(v.hash, old(v.View()), p, expected) && At(old(v.root), Parent(p) + [tempName]) == Absent
            ==> r == Done(FullySynced)
    // Another revision is refused as stale; and without a failure no refusal leaves anything behind.
    ensures v.calm && Classify(v.naming, p) == Content && expected.Valid() && expected.byteLen <= maxBytes && |contents| <= maxBytes &&
            At(old(v.root), Parent(p)) == IsDir && Clear(v.naming, old(v.root), p) && old(v.Stale(p, expected, maxBytes))
            ==> r == Failed(StaleRevision)
    ensures v.calm && !r.Done? ==> v.root == old(v.root)
    ensures r.Done? ==> v.steps == Then(Then(old(v.steps), Move(Parent(p) + [tempName], p)), Flush(Parent(p), Synced(r.value)))
  {
    var c := CheckReplace(v, p, expected, contents, maxBytes);
    if c.Err? { return Failed(c.error); }
    var replacement := FileRevision(v.hash(contents), |contents|);
    var temp := Parent(p) + [tempName];
    assert Leaf(temp) == tempName && Parent(temp) == Parent(p);
    var w := WriteTemp(v, temp, contents);
    if !w.Done? { return if w.Stopped? then Stopped else Failed(w.error); }
    ghost var filled := v.root;
    ghost var swapped;
    r, swapped := SwapIn(v, p, temp, expected, replacement, maxBytes);
    if swapped {
      OverWritten(old(v.View()), v.View(), p, temp, w.value, contents);
      WriteKeepsDistinct(v.naming, old(v.View()), v.View(), p, contents);
    } else if v.calm {
      assert Shows(filled, v.root, temp, Absent);
      SameAgain(old(v.root), v.root);
    }
  }

  /** The checks before anything is written. */
  method CheckReplace(v: Vault, p: Path, expected: FileRevision, contents: Bytes, maxBytes: nat) returns (r: Result<(), Error>)
    requires v.Valid() && p != []
    ensures r.Ok? ==> && Classify(v.naming, p) == Content && expected.Valid() && expected.byteLen <= maxBytes && |contents| <= maxBytes
                      && At(v.root, Parent(p)) == IsDir && NoCollision(v.naming, v.root, Parent(p), Leaf(p))
                      && Exact(v.hash, v.View(), p, expected)
    ensures v.calm && Classify(v.naming, p) == Content && expected.Valid() && expected.byteLen <= maxBytes && |contents| <= maxBytes &&
            At(v.root, Parent(p)) == IsDir && Clear(v.naming, v.root, p) && Exact(v.hash, v.View(), p, expected)
            ==> r.Ok?
    ensures v.calm && Classify(v.naming, p) == Content && expected.Valid() && expected.byteLen <= maxBytes && |contents| <= maxBytes &&
            At(v.root, Parent(p)) == IsDir && Clear(v.naming, v.root, p) && v.Stale(p, expected, maxBytes)
            ==> r == Err(StaleRevision)
  {
    if Classify(v.naming, p) != Content { return Err(InvalidMove); }
    if !expected.Valid() { return Err(InvalidRevision); }
    if expected.byteLen > maxBytes || |contents| > maxBytes { return Err(ResourceLimitExceeded); }
    if Clear(v.naming, v.root, p) { ClearParent(v.naming, v.root, p); }
    var c := v.OpenParentChecked(p);
    if c.Err? { return Err(c.error); }
    c := v.RejectSiblingCollision(Parent(p), Leaf(p));
    if c.Err? { return Err(c.error); }
    r := v.VerifyWithin(p, expected, maxBytes);
  }

  /** Verify the old file and the temporary one once more, rename, flush, read back. */
  method SwapIn(v: Vault, p: Path, temp: Path, expected: FileRevision, replacement: FileRevision, maxBytes: nat)
    returns (r: Outcome<MoveDurability>, ghost swapped: bool)
    requires v.Valid() && p != [] && temp != [] && p != temp && At(v.root, Parent(p)) == IsDir && At(v.root, temp).IsFile?
    requires v.objects[At(v.root, temp).obj].links == 1 && At(v.root, p) != At(v.root, temp)
    modifies v`root, v`objects, v`steps
    ensures v.Valid()
    ensures r.Done? ==> swapped
    ensures !swapped ==>
              (|| (v.root == old(v.root) && v.objects == old(v.objects))
               || (Shows(old(v.root), v.root, temp, Absent) && v.objects == Unlinked(old(v.objects), At(old(v.root), temp))))
    ensures swapped ==>
              && Exact(v.hash, old(v.View()), p, expected)
              && (forall q :: At(v.root, q) == if q == p then At(old(v.root), temp) else if q == temp then Absent else At(old(v.root), q))
              && v.objects == Unlinked(old(v.objects), At(old(v.root), p))
              && (r.Done? || r.Stopped? || r == Failed(ReplaceContentOutcomeUnknown))
    ensures v.calm && Exact(v.hash, old(v.View()), p, expected) && Exact(v.hash, old(v.View()), temp, replacement) &&
            expected.Valid() && replacement.Valid() && expected.byteLen <= maxBytes && replacement.byteLen <= maxBytes
            ==> r == Done(FullySynced)
    ensures v.calm && !r.Done? ==> !swapped && Shows(old(v.root), v.root, temp, Absent)
    ensures r.Done? ==> v.steps == Then(Then(old(v.steps), Move(temp, p)), Flush(Parent(p), Synced(r.value)))
  {
    var c := v.VerifyWithin(p, expected, maxBytes);
    if c.Ok? {
      c := v.VerifyWithin(temp, replacement, maxBytes);
    }
    if c.Ok? {
      c := v.RenameOver(temp, p);
    }
    if c.Err? {
      var _ := v.RemoveFile(temp);
      return Failed(c.error), false;
    }
    var stop := v.Fault();
    if stop { return Stopped, true; }
    var sync := v.Sync(Parent(p));
    c := v.VerifyWithin(p, replacement, maxBytes);
    if c.Err? || sync.SyncFailed? { return Failed(ReplaceContentOutcomeUnknown), true; }
    return Done(sync.durability), true;
  }

  // ----- The general atomic move

  /** `atomic_move_locked_report`: a file or a whole directory, never replacing anything. */
  method AtomicMoveLocked(v: Vault, s: Path, d: Path) returns (r: Outcome<MoveSyncReport>)
    requires v.Valid() && s != [] && d != []
    modifies v`root, v`steps
    ensures v.Valid()
    ensures v.root == old(v.root) ||
            (CanRename(old(v.root), s, d) && NoCollision(v.naming, old(v.root), Parent(d), Leaf(d)) && v.root == Rename(old(v.root), s, d))
    ensures v.root != old(v.root) ==> Movable(v.naming, old(v.root), s, d)
    ensures r.Done? ==> v.root != old(v.root) && r.value.source.None? == (Parent(s) == Parent(d))
    ensures v.root != old(v.root) ==> !r.Failed?
    ensures r.Failed? ==> r.error != AtomicMoveOutcomeUnknown
    ensures v.steps == if r.Done? then RoundSteps(Then(old(v.steps), Move(s, d)), r.value, s, d)
                       else if v.root != old(v.root) then Then(old(v.steps), Move(s, d)) else old(v.steps)
    ensures v.calm && CanRename(old(v.root), s, d) && (At(old(v.root), s) == IsDir || At(old(v.root), s).IsFile?) &&
            Clear(v.naming, old(v.root), Parent(s)) && Clear(v.naming, old(v.root), d)
            ==> r.Done? && r.value.IntoResult() == Ok(FullySynced)
  {
    var c := CheckMove(v, s, d);
    if c.Err? { return Failed(c.error); }
    ClearParent(v.naming, v.root, d);
    r := RenameAndFlush(v, s, d);
  }

  /** What may be moved: a regular file or a directory, not into itself, where nothing on the way
      to either end collides. */
  ghost predicate Movable(n: Naming, root: Node, s: Path, d: Path)
    requires s != [] && d != []
  {
    && (At(root, s).IsFile? || (At(root, s) == IsDir && !(s <= d)))
    && At(root, Parent(s)) == IsDir && Clear(n, root, Parent(s)) && At(root, Parent(d)) == IsDir && Clear(n, root, d)
  }

  /** The checks before the rename. */
  method CheckMove(v: Vault, s: Path, d: Path) returns (r: Result<(), Error>)
    requires v.Valid() && s != [] && d != []
    ensures r.Ok? ==> Movable(v.naming, v.root, s, d)
    ensures r.Err? ==> r.error != AtomicMoveOutcomeUnknown
    ensures s == d ==> r == Err(AlreadyExists)
    ensures v.calm && s != d && At(v.root, Parent(s)) == IsDir && Clear(v.naming, v.root, Parent(s)) ==>
              && (At(v.root, s) == Absent ==> r == Err(NotFound))
              && (At(v.root, s) == IsSymlink ==> r == Err(SymlinkRejected))
              && (At(v.root, s) == IsSpecial || (At(v.root, s) == IsDir && s <= d) ==> r == Err(InvalidMove))
    ensures v.calm && CanRename(v.root, s, d) && (At(v.root, s) == IsDir || At(v.root, s).IsFile?) &&
            Clear(v.naming, v.root, Parent(s)) && Clear(v.naming, v.root, d)
            ==> r.Ok?
  {
    if s == d { return Err(AlreadyExists); }
    if CanRename(v.root, s, d) { PrefixIsDir(v.root, s, |s| - 1); }
    if Clear(v.naming, v.root, d) { ClearParent(v.naming, v.root, d); }
    r := v.OpenParentChecked(s);
    if r.Err? { return; }
    if At(v.root, s) == Absent { return Err(NotFound); }
    if At(v.root, s) == IsSymlink { return Err(SymlinkRejected); }
    if At(v.root, s) == IsSpecial || (At(v.root, s) == IsDir && s <= d) { return Err(InvalidMove); }
    r := v.OpenParentChecked(d);
    if r.Err? { return; }
    r := v.RejectSiblingCollision(Parent(d), Leaf(d));
    if r.Ok? { ClearAll(v.naming, v.root, d); }
  }

  method RenameAndFlush(v: Vault, s: Path, d: Path) returns (r: Outcome<MoveSyncReport>)
    requires v.Valid() && s != [] && d != []
    modifies v`root, v`steps
    ensures v.Valid()
    ensures v.root == old(v.root) || (CanRename(old(v.root), s, d) && v.root == Rename(old(v.root), s, d))
    ensures r.Done? ==> v.root != old(v.root) && r.value.source.None? == (Parent(s) == Parent(d))
    ensures r.Failed? ==> v.root == old(v.root) && r.error != AtomicMoveOutcomeUnknown
    ensures v.steps == if r.Done? then RoundSteps(Then(old(v.steps), Move(s, d)), r.value, s, d)
                       else if v.root != old(v.root) then Then(old(v.steps), Move(s, d)) else old(v.steps)
    ensures v.calm && CanRename(old(v.root), s, d) ==> r.Done? && r.value.IntoResult() == Ok(FullySynced)
  {
    if CanRename(v.root, s, d) {
      RenameAt(v.root, s, d, d);
      assert s + d[|d|..] == s;
    }
    var stop := v.Fault();
    if stop { return Stopped; }
    var c := v.RenameNoReplace(s, d);
    if c.Err? { return Failed(c.error); }
    stop := v.Fault();
    if stop { return Stopped; }
    var report := v.SyncParents(s, d);
    return Done(report);
  }

  /** `atomic_move`: every path of the result is explained by rewriting the source prefix to
      the destination prefix. */
  method AtomicMove(v: Vault, s: Path, d: Path, intent: WriteIntent) returns (r: Outcome<MoveDurability>)
    requires v.Valid() && s != [] && d != []
    modifies v`root, v`steps
    ensures v.Valid()
    ensures v.root == old(v.root) || (Moves(old(v.root), v.root, s, d) && Movable(v.naming, old(v.root), s, d))
    ensures r.Done? ==> Moves(old(v.root), v.root, s, d)
    ensures r.Done? && SiblingsDistinct(v.naming, old(v.root)) ==> SiblingsDistinct(v.naming, v.root)
    ensures r.Failed? ==> (r.error == AtomicMoveOutcomeUnknown <==> v.root != old(v.root))
    // The policy looks at the source first, then at the destination.
    ensures Refused(v.naming, s, intent).Some? ==> r == Failed(Refused(v.naming, s, intent).value) && v.View() == old(v.View())
    ensures Refused(v.naming, s, intent).None? && Refused(v.naming, d, intent).Some? ==>
              r == Failed(Refused(v.naming, d, intent).value) && v.View() == old(v.View())
    ensures v.calm && Refused(v.naming, s, intent).None? && Refused(v.naming, d, intent).None? &&
            CanRename(old(v.root), s, d) && (At(old(v.root), s) == IsDir || At(old(v.root), s).IsFile?) &&
            Clear(v.naming, old(v.root), Parent(s)) && Clear(v.naming, old(v.root), d)
            ==> r == Done(FullySynced)
    // Both directories were flushed after the rename, and the durability is what that gave.
    ensures r.Done? ==> exists report :: MovedBy(old(v.steps), v.steps, s, d, report) && report.IntoResult() == Ok(r.value)
    ensures r == Failed(AtomicMoveOutcomeUnknown) ==> exists report :: MovedBy(old(v.steps), v.steps, s, d, report) && report.HasFailure()
  {
    if !PolicyAllows(v.naming, s, intent) {
      return Failed(Denial(v.naming, s));
    }
    if !PolicyAllows(v.naming, d, intent) {
      return Failed(Denial(v.naming, d));
    }
    var moved := AtomicMoveLocked(v, s, d);
    if v.root != old(v.root) {
      MovesByPrefix(old(v.root), s, d);
      if SiblingsDistinct(v.naming, old(v.root)) {
        MoveKeepsDistinct(v.naming, old(v.root), s, d);
      }
    }
    if !moved.Done? { return if moved.Stopped? then Stopped else Failed(moved.error); }
    var result := moved.value.IntoResult();
    assert MovedBy(old(v.steps), v.steps, s, d, moved.value);
    return if result.Ok? then Done(result.value) else Failed(result.error);
  }

  /** One rename, then one flush of each of the two directories. */
  ghost predicate MovedBy(start: Trace, now: Trace, s: Path, d: Path, report: MoveSyncReport)
    requires s != [] && d != []
  {
    now == RoundSteps(Then(start, Move(s, d)), report, s, d) && (report.source.None? <==> Parent(s) == Parent(d))
  }

  /** Everything below `s` is now below `d`, in the same shape; nothing was at `d` before,
      nothing is at `s` after, and no other path changed. */
  ghost predicate Moves(pre: Node, post: Node, s: Path, d: Path) {
    && At(pre, s) != Absent
    && (forall r :: At(post, d + r) == At(pre, s + r) && At(pre, d + r) == Absent && At(post, s + r) == Absent)
    && (forall q :: !(s <= q) && !(d <= q) ==> At(post, q) == At(pre, q))
  }

  lemma MovesByPrefix(pre: Node, s: Path, d: Path)
    requires CanRename(pre, s, d)
    ensures Moves(pre, Rename(pre, s, d), s, d)
  {
    RenameAll(pre, s, d);
    var post := Rename(pre, s, d);
    forall r ensures At(post, d + r) == At(pre, s + r) && At(pre, d + r) == Absent && At(post, s + r) == Absent {
      assert d <= d + r && (d + r)[|d|..] == r;
      if r != [] {
        NothingBelow(pre, d, d + r);
      } else {
        assert d + r == d;
      }
      if d <= s + r {
        BothPrefixes(s, d, r);
        NothingBelow(pre, d, s);
      }
    }
  }

  lemma BothPrefixes(s: Path, d: Path, r: Path)
    requires d <= s + r && !(s <= d)
    ensures d <= s && d != s
  {
    assert (s + r)[..|s|] == s && (s + r)[..|d|] == d;
    assert |d| <= |s| ==> s[..|d|] == d;
  }
}
