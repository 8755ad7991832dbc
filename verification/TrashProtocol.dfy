// crates/myvault-core/src/trash.rs and the Trash part of vault.rs, seen from outside: the
// layout under `.trash/v1`, what one call may do to the tree wherever it is cut off, and what
// every run of such calls keeps.

module TrashProtocol {
  import opened Wrappers
  import opened Tree
  import opened Paths
  import opened Disk

  datatype TrashArea = Staging | Items

  const NIL := "00000000-0000-0000-0000-000000000000"
  const MAX_TRASH_MANIFEST_BYTES := 16 * 1024
  const MAX_RESERVED_MANIFEST_TEMPS := 32

  function AreaName(a: TrashArea): string {
    match a
    case Staging => "staging"
    case Items => "items"
  }

  function AreaPath(a: TrashArea): Path {
    [".trash", "v1", AreaName(a)]
  }

  function ItemDir(a: TrashArea, id: string): Path {
    [".trash", "v1", AreaName(a), id]
  }

  function ItemPath(a: TrashArea, id: string, leaf: string): Path {
    [".trash", "v1", AreaName(a), id, leaf]
  }

  function Payload(a: TrashArea, id: string): Path {
    ItemPath(a, id, "payload")
  }

  function ManifestPath(a: TrashArea, id: string): Path {
    ItemPath(a, id, "manifest.json")
  }

  datatype Manifest = Manifest(version: nat, trashId: string, operationId: string, original: Path,
                               revision: FileRevision, trashedAtUnixMs: int)

  /** What the store is built on: names, hashing, the manifest codec, and the names reserved
      for manifest temporaries. */
  datatype Rules = Rules(naming: Naming, hash: Bytes -> string, encode: Manifest -> Bytes,
                         decode: Bytes -> Option<Manifest>, digest: Bytes -> string, reserved: string -> bool) {

    ghost predicate Lawful() {
      && naming.Lawful()
      && (forall m, id :: ValidManifest(m, id) ==> decode(encode(m)) == Some(m))
      && !reserved("manifest.json") && !reserved("payload")
    }

    /** `TrashManifestV1::validate` */
    predicate ValidManifest(m: Manifest, id: string) {
      && m.version == 1 && m.trashId != NIL && m.trashId == id && m.operationId != NIL
      && Canonical(naming, m.original) && Classify(naming, m.original) == Content
      && m.revision.Valid() && m.revision.byteLen <= MAX_TRASH_PAYLOAD_BYTES
      && m.trashedAtUnixMs >= 0
    }

    /** These bytes are the canonical form of a manifest valid for `id`. */
    predicate Reads(bytes: Bytes, id: string, m: Manifest) {
      |bytes| <= MAX_TRASH_MANIFEST_BYTES && decode(bytes) == Some(m) && ValidManifest(m, id) && encode(m) == bytes
    }

    /** The directory of `id` in `a` holds a readable single-link manifest `m`. */
    ghost predicate Bound(s: State, a: TrashArea, id: string, m: Manifest) {
      var e := At(s.root, ManifestPath(a, id));
      e.IsFile? && e.obj in s.objects && s.objects[e.obj].links == 1 && Reads(s.objects[e.obj].bytes, id, m)
    }
  }

  lemma BoundUnique(r: Rules, s: State, a: TrashArea, id: string, m: Manifest, n: Manifest)
    requires r.Bound(s, a, id, m) && r.Bound(s, a, id, n)
    ensures m == n
  {
  }

  // ----- Paths that cannot be confused

  lemma ItemPathsApart()
    ensures forall a, b, i, j, k, l :: ItemPath(a, i, k) == ItemPath(b, j, l) ==> a == b && i == j && k == l
    ensures forall a, b, i, j :: ItemDir(a, i) == ItemDir(b, j) ==> a == b && i == j
  {
    forall a, b, i, j, k, l | ItemPath(a, i, k) == ItemPath(b, j, l) ensures a == b && i == j && k == l {
      var p, q := ItemPath(a, i, k), ItemPath(b, j, l);
      assert p[2] == q[2] && p[3] == q[3] && p[4] == q[4];
      assert AreaName(a)[0] == AreaName(b)[0];
    }
    forall a, b, i, j | ItemDir(a, i) == ItemDir(b, j) ensures a == b && i == j {
      var p, q := ItemDir(a, i), ItemDir(b, j);
      assert p[2] == q[2] && p[3] == q[3];
      assert AreaName(a)[0] == AreaName(b)[0];
    }
  }

  ghost predicate InTrash(p: Path) {
    p != [] && p[0] == ".trash"
  }

  lemma ContentOutside(n: Naming, p: Path)
    requires n.Lawful() && Classify(n, p) == Content
    ensures !InTrash(p)
  {
  }

  // ----- What one call may do, wherever it stops

  /** Prepare only adds: missing containers, the staging directory of an id that has no items
      directory, one temporary file, or the manifest, which is complete from the start. */
  ghost predicate PrepareStep(r: Rules, pre: State, post: State, id: string, m: Manifest, temp: string) {
    && r.reserved(temp)
    && (forall q :: At(post.root, q) == At(pre.root, q) ||
                    (At(pre.root, q) == Absent &&
                     (|| (q in [[".trash"], [".trash", "v1"], AreaPath(Staging), AreaPath(Items)] && At(post.root, q) == IsDir)
                      || (q == ItemDir(Staging, id) && At(post.root, q) == IsDir && At(pre.root, ItemDir(Items, id)) == Absent)
                      || (q == ItemPath(Staging, id, temp) && At(post.root, q).IsFile? && At(post.root, q).obj !in pre.objects)
                      || (q == ManifestPath(Staging, id) && At(post.root, q).IsFile? && At(post.root, q).obj !in pre.objects &&
                          r.Bound(post, Staging, id, m)))))
    && (forall o :: o in pre.objects ==> o in post.objects && post.objects[o] == pre.objects[o])
  }

  /** Stage moves the bound source, and only it, to the staging payload. */
  ghost predicate StageStep(r: Rules, pre: State, post: State, id: string, m: Manifest) {
    && r.Bound(pre, Staging, id, m) && At(pre.root, m.original).IsFile?
    && CanRename(pre.root, m.original, Payload(Staging, id))
    && post == pre.(root := Rename(pre.root, m.original, Payload(Staging, id)))
  }

  /** Publish moves a complete staging directory to items. */
  ghost predicate PublishStep(r: Rules, pre: State, post: State, id: string, m: Manifest) {
    && r.Bound(pre, Staging, id, m) && At(pre.root, Payload(Staging, id)).IsFile?
    && CanRename(pre.root, ItemDir(Staging, id), ItemDir(Items, id))
    && post == pre.(root := Rename(pre.root, ItemDir(Staging, id), ItemDir(Items, id)))
  }

  /** Restore moves the payload back to the manifest's path. */
  ghost predicate RestoreStep(r: Rules, pre: State, post: State, id: string, m: Manifest) {
    && r.Bound(pre, Items, id, m) && At(pre.root, Payload(Items, id)).IsFile?
    && CanRename(pre.root, Payload(Items, id), m.original)
    && post == pre.(root := Rename(pre.root, Payload(Items, id), m.original))
  }

  ghost predicate TrashStep(r: Rules, pre: State, post: State) {
    || post == pre
    || (exists id, m, temp :: PrepareStep(r, pre, post, id, m, temp))
    || (exists id, m :: StageStep(r, pre, post, id, m))
    || (exists id, m :: PublishStep(r, pre, post, id, m))
    || (exists id, m :: RestoreStep(r, pre, post, id, m))
  }

  /** Holds initially when the trash is empty, and after every step. */
  ghost predicate TrashInv(r: Rules, s: State) {
    && WellFormed(s)
    && (forall id :: At(s.root, ItemDir(Staging, id)) == Absent || At(s.root, ItemDir(Items, id)) == Absent)
    && (forall a, id :: At(s.root, Payload(a, id)).IsFile? ==> exists m :: r.Bound(s, a, id, m))
  }

  /** Every manifest in `a` is still there, on the same object with the same bytes. */
  ghost predicate ManifestsKept(pre: State, post: State, a: TrashArea, except: set<string>) {
    forall id :: id !in except && At(pre.root, ManifestPath(a, id)).IsFile? ==>
      && At(post.root, ManifestPath(a, id)) == At(pre.root, ManifestPath(a, id))
      && var o := At(pre.root, ManifestPath(a, id)).obj;
         o in pre.objects ==> o in post.objects && post.objects[o] == pre.objects[o]
  }

  lemma BoundKept(r: Rules, pre: State, post: State, a: TrashArea, except: set<string>)
    requires ManifestsKept(pre, post, a, except)
    ensures forall id, m :: id !in except && r.Bound(pre, a, id, m) ==> r.Bound(post, a, id, m)
  {
  }

  lemma PrepareKeepsManifests(r: Rules, pre: State, post: State, id: string, m: Manifest, temp: string)
    requires PrepareStep(r, pre, post, id, m, temp)
    ensures ManifestsKept(pre, post, Staging, {}) && ManifestsKept(pre, post, Items, {})
  {
  }

  /** A file move that does not start or end at a manifest keeps all manifests. */
  lemma FileMoveKeepsManifests(pre: State, post: State, s: Path, d: Path)
    requires CanRename(pre.root, s, d) && At(pre.root, s).IsFile? && post == pre.(root := Rename(pre.root, s, d))
    requires forall a, id :: s != ManifestPath(a, id)
    ensures ManifestsKept(pre, post, Staging, {}) && ManifestsKept(pre, post, Items, {})
  {
    RenameFile(pre.root, s, d);
  }

  /** What publishing shows at every item path. */
  lemma PublishAt(r: Rules, pre: State, post: State, id: string, m: Manifest)
    requires PublishStep(r, pre, post, id, m)
    ensures forall leaf :: At(post.root, ItemPath(Items, id, leaf)) == At(pre.root, ItemPath(Staging, id, leaf))
    ensures forall leaf :: At(post.root, ItemPath(Staging, id, leaf)) == Absent && At(pre.root, ItemPath(Items, id, leaf)) == Absent
    ensures At(post.root, ItemDir(Staging, id)) == Absent && At(post.root, ItemDir(Items, id)) == At(pre.root, ItemDir(Staging, id))
    ensures forall q :: !(ItemDir(Staging, id) <= q) && !(ItemDir(Items, id) <= q) ==> At(post.root, q) == At(pre.root, q)
  {
    var s, d := ItemDir(Staging, id), ItemDir(Items, id);
    RenameAll(pre.root, s, d);
    assert s[2][0] != d[2][0];
    assert !(d <= s);
    assert s + d[|d|..] == s;
    forall leaf
      ensures At(post.root, ItemPath(Items, id, leaf)) == At(pre.root, ItemPath(Staging, id, leaf))
      ensures At(post.root, ItemPath(Staging, id, leaf)) == Absent && At(pre.root, ItemPath(Items, id, leaf)) == Absent
    {
      assert ItemPath(Items, id, leaf) == d + [leaf] && ItemPath(Staging, id, leaf) == s + [leaf];
      assert (d + [leaf])[|d|..] == [leaf];
      assert !(d <= s + [leaf]) by { assert (s + [leaf])[2] == s[2]; }
      NothingBelow(pre.root, d, d + [leaf]);
    }
  }

  lemma OtherItemsApart(a: TrashArea, id: string, b: TrashArea, other: string, leaf: string)
    requires (a, id) != (b, other)
    ensures !(ItemDir(a, id) <= ItemPath(b, other, leaf)) && !(ItemDir(a, id) <= ItemDir(b, other))
  {
    var p, q := ItemDir(a, id), ItemPath(b, other, leaf);
    assert AreaName(a) == AreaName(b) ==> a == b by {
      assert AreaName(a)[0] == 's' <==> a == Staging;
      assert AreaName(b)[0] == 's' <==> b == Staging;
    }
    assert p[2] != q[2] || p[3] != q[3];
  }

  // ----- The invariant

  lemma PrepareKeepsInv(r: Rules, pre: State, post: State, id: string, m: Manifest, temp: string)
    requires r.Lawful() && TrashInv(r, pre) && PrepareStep(r, pre, post, id, m, temp) && WellFormed(post)
    ensures TrashInv(r, post)
  {
    PrepareKeepsManifests(r, pre, post, id, m, temp);
    BoundKept(r, pre, post, Staging, {});
    BoundKept(r, pre, post, Items, {});
    forall a, i | At(post.root, Payload(a, i)).IsFile? ensures exists n :: r.Bound(post, a, i, n) {
      PrepareAddsNoPayload(r, pre, post, id, m, temp, a, i);
      var n :| r.Bound(pre, a, i, n);
      assert r.Bound(post, a, i, n);
    }
    forall i ensures At(post.root, ItemDir(Staging, i)) == Absent || At(post.root, ItemDir(Items, i)) == Absent {
      PrepareAddsOneDirectory(r, pre, post, id, m, temp, i);
    }
  }

  lemma PrepareAddsNoPayload(r: Rules, pre: State, post: State, id: string, m: Manifest, temp: string, a: TrashArea, i: string)
    requires r.Lawful() && PrepareStep(r, pre, post, id, m, temp)
    ensures At(post.root, Payload(a, i)) == At(pre.root, Payload(a, i))
  {
    ItemPathsApart();
    assert |Payload(a, i)| == 5;
  }

  lemma PrepareAddsOneDirectory(r: Rules, pre: State, post: State, id: string, m: Manifest, temp: string, i: string)
    requires r.Lawful() && TrashInv(r, pre) && PrepareStep(r, pre, post, id, m, temp)
    ensures At(post.root, ItemDir(Staging, i)) == Absent || At(post.root, ItemDir(Items, i)) == Absent
  {
    ItemPathsApart();
    assert |ItemDir(Staging, i)| == 4 && |ItemDir(Items, i)| == 4;
  }

  lemma FileMoveKeepsInv(r: Rules, pre: State, post: State, s: Path, d: Path, m: Manifest)
    requires r.Lawful() && TrashInv(r, pre) && WellFormed(post)
    requires CanRename(pre.root, s, d) && At(pre.root, s).IsFile? && post == pre.(root := Rename(pre.root, s, d))
    requires |s| == 5 && InTrash(s) ==> s[4] == "payload"
    requires |d| == 5 && InTrash(d) ==> exists id :: d == Payload(Staging, id) && r.Bound(pre, Staging, id, m)
    requires InTrash(s) ==> |s| == 5
    requires InTrash(d) ==> |d| == 5
    ensures TrashInv(r, post)
    ensures ManifestsKept(pre, post, Staging, {}) && ManifestsKept(pre, post, Items, {})
  {
    RenameFile(pre.root, s, d);
    ItemPathsApart();
    forall a, id ensures s != ManifestPath(a, id) {
      assert ManifestPath(a, id)[4] == "manifest.json" && InTrash(ManifestPath(a, id));
      assert "manifest.json"[0] != "payload"[0];
    }
    FileMoveKeepsManifests(pre, post, s, d);
    BoundKept(r, pre, post, Staging, {});
    BoundKept(r, pre, post, Items, {});
    forall a, i | At(post.root, Payload(a, i)).IsFile? ensures exists n :: r.Bound(post, a, i, n) {
      if d == Payload(a, i) {
        assert InTrash(d) && |d| == 5;
        assert r.Bound(post, a, i, m);
      } else {
        var n :| r.Bound(pre, a, i, n);
        assert r.Bound(post, a, i, n);
      }
    }
    forall i ensures At(post.root, ItemDir(Staging, i)) == Absent || At(post.root, ItemDir(Items, i)) == Absent {
      assert InTrash(ItemDir(Staging, i)) && InTrash(ItemDir(Items, i));
      assert |ItemDir(Staging, i)| == 4 && |ItemDir(Items, i)| == 4;
    }
  }

  lemma PublishOthers(r: Rules, pre: State, post: State, id: string, m: Manifest, a: TrashArea, i: string)
    requires PublishStep(r, pre, post, id, m) && i != id
    ensures At(post.root, Payload(a, i)) == At(pre.root, Payload(a, i))
    ensures At(post.root, ManifestPath(a, i)) == At(pre.root, ManifestPath(a, i))
    ensures At(post.root, ItemDir(a, i)) == At(pre.root, ItemDir(a, i))
  {
    PublishAt(r, pre, post, id, m);
    OtherItemsApart(Staging, id, a, i, "payload");
    OtherItemsApart(Items, id, a, i, "payload");
    OtherItemsApart(Staging, id, a, i, "manifest.json");
    OtherItemsApart(Items, id, a, i, "manifest.json");
  }

  lemma PublishKeepsManifests(r: Rules, pre: State, post: State, id: string, m: Manifest)
    requires PublishStep(r, pre, post, id, m)
    ensures ManifestsKept(pre, post, Staging, {id}) && ManifestsKept(pre, post, Items, {}) && r.Bound(post, Items, id, m)
  {
    PublishAt(r, pre, post, id, m);
    forall a, i | i != id ensures At(post.root, ManifestPath(a, i)) == At(pre.root, ManifestPath(a, i)) {
      PublishOthers(r, pre, post, id, m, a, i);
    }
    assert At(pre.root, ManifestPath(Items, id)) == Absent;
  }

  lemma PublishKeepsInv(r: Rules, pre: State, post: State, id: string, m: Manifest)
    requires r.Lawful() && TrashInv(r, pre) && WellFormed(post) && PublishStep(r, pre, post, id, m)
    ensures TrashInv(r, post)
    ensures ManifestsKept(pre, post, Staging, {id}) && ManifestsKept(pre, post, Items, {}) && r.Bound(post, Items, id, m)
  {
    PublishAt(r, pre, post, id, m);
    PublishKeepsManifests(r, pre, post, id, m);
    BoundKept(r, pre, post, Staging, {id});
    BoundKept(r, pre, post, Items, {});
    forall i ensures At(post.root, ItemDir(Staging, i)) == Absent || At(post.root, ItemDir(Items, i)) == Absent {
      if i != id {
        PublishOthers(r, pre, post, id, m, Staging, i);
        PublishOthers(r, pre, post, id, m, Items, i);
      }
    }
    forall a, i | At(post.root, Payload(a, i)).IsFile? ensures exists n :: r.Bound(post, a, i, n) {
      if i == id {
        assert At(post.root, Payload(Staging, id)) == Absent;
        assert r.Bound(post, a, i, m);
      } else {
        PublishOthers(r, pre, post, id, m, a, i);
        var n :| r.Bound(pre, a, i, n);
        assert r.Bound(post, a, i, n);
      }
    }
  }

  // ----- Where a file belongs

  /** The path a file at `p` belongs to: content is at home, a payload belongs to the path in
      the manifest beside it. */
  ghost predicate Home(r: Rules, s: State, p: Path, h: Path) {
    || (Classify(r.naming, p) == Content && p == h)
    || exists a, id, m :: p == Payload(a, id) && r.Bound(s, a, id, m) && m.original == h
  }

  ghost predicate Belongs(r: Rules, s: State, o: nat, h: Path) {
    exists p :: At(s.root, p) == IsFile(o) && Home(r, s, p, h)
  }

  ghost predicate OnlyAt(s: State, o: nat, p: Path) {
    At(s.root, p) == IsFile(o) && forall q :: At(s.root, q) == IsFile(o) ==> q == p
  }

  /** Homes of unmoved files do not change when manifests are kept. */
  lemma HomeKept(r: Rules, pre: State, post: State, p: Path, h: Path)
    requires r.Lawful() && TrashInv(r, pre) && At(pre.root, p).IsFile?
    requires forall a, id, m :: p == Payload(a, id) && r.Bound(pre, a, id, m) ==> r.Bound(post, a, id, m)
    ensures Home(r, pre, p, h) <==> Home(r, post, p, h)
  {
    if Home(r, post, p, h) && !(Classify(r.naming, p) == Content && p == h) {
      var a, id, m :| p == Payload(a, id) && r.Bound(post, a, id, m) && m.original == h;
      var n :| r.Bound(pre, a, id, n);
      BoundUnique(r, post, a, id, m, n);
    }
  }

  lemma PrepareHomes(r: Rules, pre: State, post: State, id: string, m: Manifest, temp: string, o: nat, h: Path)
    requires r.Lawful() && TrashInv(r, pre) && PrepareStep(r, pre, post, id, m, temp)
    ensures Belongs(r, pre, o, h) <==> Belongs(r, post, o, h)
    ensures o in pre.objects ==> forall p :: OnlyAt(pre, o, p) ==> OnlyAt(post, o, p)
  {
    PrepareKeepsManifests(r, pre, post, id, m, temp);
    BoundKept(r, pre, post, Staging, {});
    BoundKept(r, pre, post, Items, {});
    forall p | At(pre.root, p).IsFile? ensures At(pre.root, p) == At(post.root, p) && (Home(r, pre, p, h) <==> Home(r, post, p, h)) {
      HomeKept(r, pre, post, p, h);
    }
    forall p | At(post.root, p).IsFile? && At(pre.root, p) != At(post.root, p) ensures !Home(r, post, p, h) {
      ItemPathsApart();
      assert p == ItemPath(Staging, id, temp) || p == ManifestPath(Staging, id);
      assert Classify(r.naming, p) == Trash;
      assert "manifest.json"[0] != "payload"[0];
    }
  }

  /** A payload travels between its home and the trash directory that is bound to that home. */
  lemma FileMoveHomes(r: Rules, pre: State, post: State, s: Path, d: Path, o: nat, h: Path)
    requires r.Lawful() && TrashInv(r, pre)
    requires CanRename(pre.root, s, d) && At(pre.root, s).IsFile? && post == pre.(root := Rename(pre.root, s, d))
    requires ManifestsKept(pre, post, Staging, {}) && ManifestsKept(pre, post, Items, {})
    requires Home(r, pre, s, h) <==> Home(r, post, d, h)
    ensures Belongs(r, pre, o, h) <==> Belongs(r, post, o, h)
    ensures forall p :: OnlyAt(pre, o, p) ==> OnlyAt(post, o, if p == s then d else p)
  {
    RenameFile(pre.root, s, d);
    if Belongs(r, pre, o, h) {
      var p :| At(pre.root, p) == IsFile(o) && Home(r, pre, p, h);
      var q := if p == s then d else p;
      if p != s { HomeStays(r, pre, post, p, h); }
      assert At(post.root, q) == IsFile(o) && Home(r, post, q, h);
    }
    if Belongs(r, post, o, h) {
      var q :| At(post.root, q) == IsFile(o) && Home(r, post, q, h);
      var p := if q == d then s else q;
      if p != s { HomeStays(r, pre, post, p, h); }
      assert At(pre.root, p) == IsFile(o) && Home(r, pre, p, h);
    }
  }

  lemma HomeStays(r: Rules, pre: State, post: State, p: Path, h: Path)
    requires r.Lawful() && TrashInv(r, pre) && At(pre.root, p).IsFile? && At(post.root, p) == At(pre.root, p)
    requires ManifestsKept(pre, post, Staging, {}) && ManifestsKept(pre, post, Items, {})
    ensures Home(r, pre, p, h) <==> Home(r, post, p, h)
  {
    BoundKept(r, pre, post, Staging, {});
    BoundKept(r, pre, post, Items, {});
    HomeKept(r, pre, post, p, h);
  }

  lemma StageHome(r: Rules, pre: State, post: State, id: string, m: Manifest, h: Path)
    requires r.Lawful() && r.Bound(pre, Staging, id, m) && r.Bound(post, Staging, id, m)
    ensures Home(r, pre, m.original, h) <==> Home(r, post, Payload(Staging, id), h)
    ensures h == m.original ==> Home(r, pre, m.original, h)
  {
    ItemPathsApart();
    ContentOutside(r.naming, m.original);
    assert Classify(r.naming, Payload(Staging, id)) == Trash;
    if h == m.original {
      assert Payload(Staging, id) == Payload(Staging, id) && r.Bound(post, Staging, id, m);
    }
    if Home(r, post, Payload(Staging, id), h) {
      var a, i, n :| Payload(Staging, id) == Payload(a, i) && r.Bound(post, a, i, n) && n.original == h;
      BoundUnique(r, post, Staging, id, m, n);
    }
  }

  lemma RestoreHome(r: Rules, pre: State, post: State, id: string, m: Manifest, h: Path)
    requires r.Lawful() && r.Bound(pre, Items, id, m)
    ensures Home(r, pre, Payload(Items, id), h) <==> Home(r, post, m.original, h)
  {
    ItemPathsApart();
    ContentOutside(r.naming, m.original);
    assert Classify(r.naming, Payload(Items, id)) == Trash;
    if h == m.original {
      assert Payload(Items, id) == Payload(Items, id) && r.Bound(pre, Items, id, m);
    }
    if Home(r, pre, Payload(Items, id), h) {
      var a, i, n :| Payload(Items, id) == Payload(a, i) && r.Bound(pre, a, i, n) && n.original == h;
      BoundUnique(r, pre, Items, id, m, n);
    }
  }

  /** Where publishing takes an entry. */
  function Published(id: string, p: Path): Path {
    if ItemDir(Staging, id) <= p then ItemDir(Items, id) + p[4..] else p
  }

  lemma PublishPlaces(r: Rules, pre: State, post: State, id: string, m: Manifest, o: nat)
    requires PublishStep(r, pre, post, id, m)
    ensures forall p :: At(pre.root, p) == IsFile(o) ==> At(post.root, Published(id, p)) == IsFile(o)
    ensures forall q :: At(post.root, q) == IsFile(o) ==> exists p :: q == Published(id, p) && At(pre.root, p) == IsFile(o)
  {
    var s, d := ItemDir(Staging, id), ItemDir(Items, id);
    RenameAll(pre.root, s, d);
    forall p | At(pre.root, p) == IsFile(o) ensures At(post.root, Published(id, p)) == IsFile(o) {
      if s <= p {
        assert (d + p[4..])[|d|..] == p[4..] && s + p[4..] == p;
      } else if d <= p {
        if p != d { NothingBelow(pre.root, d, p); }
      }
    }
    forall q | At(post.root, q) == IsFile(o) ensures exists p :: q == Published(id, p) && At(pre.root, p) == IsFile(o) {
      if d <= q {
        var p := s + q[|d|..];
        assert s <= p && p[4..] == q[4..] && d + q[4..] == q;
        assert q == Published(id, p);
      } else {
        assert q == Published(id, q);
      }
    }
  }

  lemma PublishHomes(r: Rules, pre: State, post: State, id: string, m: Manifest, o: nat, h: Path)
    requires r.Lawful() && TrashInv(r, pre) && PublishStep(r, pre, post, id, m) && WellFormed(post)
    ensures Belongs(r, pre, o, h) <==> Belongs(r, post, o, h)
    ensures forall p :: OnlyAt(pre, o, p) ==> OnlyAt(post, o, Published(id, p))
  {
    PublishPlaces(r, pre, post, id, m, o);
    forall p | At(pre.root, p) == IsFile(o) ensures Home(r, pre, p, h) <==> Home(r, post, Published(id, p), h) {
      PublishHome(r, pre, post, id, m, p, h);
    }
  }

  lemma PublishHome(r: Rules, pre: State, post: State, id: string, m: Manifest, p: Path, h: Path)
    requires r.Lawful() && TrashInv(r, pre) && PublishStep(r, pre, post, id, m) && WellFormed(post) && At(pre.root, p).IsFile?
    ensures Home(r, pre, p, h) <==> Home(r, post, Published(id, p), h)
  {
    PublishKeepsManifests(r, pre, post, id, m);
    var q := Published(id, p);
    if p == Payload(Staging, id) {
      assert q == Payload(Items, id) by { assert p[4..] == ["payload"]; }
      PayloadHome(r, pre, Staging, id, m, h);
      PayloadHome(r, post, Items, id, m, h);
    } else if ItemDir(Staging, id) <= p {
      NoHome(r, pre, Staging, id, p, h);
      assert ItemDir(Items, id) <= q && q[4..] == p[4..];
      assert p == ItemDir(Staging, id) + p[4..];
      NoHome(r, post, Items, id, q, h);
    } else {
      BoundKept(r, pre, post, Staging, {id});
      BoundKept(r, pre, post, Items, {});
      assert forall a, i :: p == Payload(a, i) && a == Staging ==> i != id by {
        assert ItemDir(Staging, id) <= Payload(Staging, id);
      }
      HomeKept(r, pre, post, p, h);
    }
  }

  /** A payload belongs to the path its manifest names, and to no other. */
  lemma PayloadHome(r: Rules, s: State, a: TrashArea, id: string, m: Manifest, h: Path)
    requires r.Lawful() && r.Bound(s, a, id, m)
    ensures Home(r, s, Payload(a, id), h) <==> h == m.original
  {
    ItemPathsApart();
    assert Payload(a, id)[0] == ".trash";
    if Home(r, s, Payload(a, id), h) {
      var b, i, n :| Payload(a, id) == Payload(b, i) && r.Bound(s, b, i, n) && n.original == h;
      BoundUnique(r, s, a, id, m, n);
    }
  }

  /** Nothing but a payload inside an item directory belongs anywhere. */
  lemma NoHome(r: Rules, s: State, a: TrashArea, id: string, p: Path, h: Path)
    requires r.Lawful() && ItemDir(a, id) <= p && p != Payload(a, id)
    ensures !Home(r, s, p, h)
  {
    assert p[0] == ItemDir(a, id)[0] == ".trash";
    forall b, i ensures p != Payload(b, i) {
      assert p == ItemDir(a, id) + p[4..] && Payload(b, i)[4..] == ["payload"] && Payload(a, id) == ItemDir(a, id) + ["payload"];
    }
  }

  // ----- Every step and every run

  ghost predicate Linked(r: Rules, pre: State, post: State) {
    r.Lawful() && TrashInv(r, pre) && WellFormed(post) && TrashStep(r, pre, post)
  }

  /** One call, cut off anywhere: the invariant holds, every file keeps its home, published
      manifests stay, and no bytes change. */
  lemma StepKeeps(r: Rules, pre: State, post: State)
    requires Linked(r, pre, post)
    ensures TrashInv(r, post)
    ensures ManifestsKept(pre, post, Items, {})
    ensures forall o :: o in pre.objects ==> o in post.objects && post.objects[o] == pre.objects[o]
    ensures forall o, h :: Belongs(r, pre, o, h) <==> Belongs(r, post, o, h)
    ensures forall o, p :: o in pre.objects && OnlyAt(pre, o, p) ==> exists q :: OnlyAt(post, o, q)
  {
    if post == pre {
    } else if exists id, m, temp :: PrepareStep(r, pre, post, id, m, temp) {
      var id, m, temp :| PrepareStep(r, pre, post, id, m, temp);
      PrepareKeepsInv(r, pre, post, id, m, temp);
      PrepareKeepsManifests(r, pre, post, id, m, temp);
      forall o, h ensures Belongs(r, pre, o, h) <==> Belongs(r, post, o, h) {
        PrepareHomes(r, pre, post, id, m, temp, o, h);
      }
      forall o, p | o in pre.objects && OnlyAt(pre, o, p) ensures exists q :: OnlyAt(post, o, q) {
        PrepareHomes(r, pre, post, id, m, temp, o, []);
      }
    } else if exists id, m :: StageStep(r, pre, post, id, m) {
      var id, m :| StageStep(r, pre, post, id, m);
      StageKeeps(r, pre, post, id, m);
    } else if exists id, m :: RestoreStep(r, pre, post, id, m) {
      var id, m :| RestoreStep(r, pre, post, id, m);
      RestoreKeeps(r, pre, post, id, m);
    } else {
      var id, m :| PublishStep(r, pre, post, id, m);
      PublishKeepsInv(r, pre, post, id, m);
      forall o, h ensures Belongs(r, pre, o, h) <==> Belongs(r, post, o, h) {
        PublishHomes(r, pre, post, id, m, o, h);
      }
      forall o, p | OnlyAt(pre, o, p) ensures exists q :: OnlyAt(post, o, q) {
        PublishHomes(r, pre, post, id, m, o, []);
      }
    }
  }

  lemma StageKeeps(r: Rules, pre: State, post: State, id: string, m: Manifest)
    requires r.Lawful() && TrashInv(r, pre) && WellFormed(post) && StageStep(r, pre, post, id, m)
    ensures TrashInv(r, post)
    ensures ManifestsKept(pre, post, Items, {})
    ensures forall o, h :: Belongs(r, pre, o, h) <==> Belongs(r, post, o, h)
    ensures forall o, p :: OnlyAt(pre, o, p) ==> exists q :: OnlyAt(post, o, q)
  {
    var s, d := m.original, Payload(Staging, id);
    ContentOutside(r.naming, s);
    FileMoveKeepsInv(r, pre, post, s, d, m);
    BoundKept(r, pre, post, Staging, {});
    forall o, h ensures Belongs(r, pre, o, h) <==> Belongs(r, post, o, h) {
      StageHome(r, pre, post, id, m, h);
      FileMoveHomes(r, pre, post, s, d, o, h);
    }
    forall o, p | OnlyAt(pre, o, p) ensures exists q :: OnlyAt(post, o, q) {
      StageHome(r, pre, post, id, m, []);
      FileMoveHomes(r, pre, post, s, d, o, []);
    }
  }

  lemma RestoreKeeps(r: Rules, pre: State, post: State, id: string, m: Manifest)
    requires r.Lawful() && TrashInv(r, pre) && WellFormed(post) && RestoreStep(r, pre, post, id, m)
    ensures TrashInv(r, post)
    ensures ManifestsKept(pre, post, Items, {})
    ensures forall o, h :: Belongs(r, pre, o, h) <==> Belongs(r, post, o, h)
    ensures forall o, p :: OnlyAt(pre, o, p) ==> exists q :: OnlyAt(post, o, q)
  {
    var s, d := Payload(Items, id), m.original;
    ContentOutside(r.naming, d);
    FileMoveKeepsInv(r, pre, post, s, d, m);
    forall o, h ensures Belongs(r, pre, o, h) <==> Belongs(r, post, o, h) {
      RestoreHome(r, pre, post, id, m, h);
      FileMoveHomes(r, pre, post, s, d, o, h);
    }
    forall o, p | OnlyAt(pre, o, p) ensures exists q :: OnlyAt(post, o, q) {
      RestoreHome(r, pre, post, id, m, []);
      FileMoveHomes(r, pre, post, s, d, o, []);
    }
  }

  /** A run: each state follows from the one before by one call that was cut off anywhere. */
  ghost predicate TrashRun(r: Rules, run: seq<State>) {
    && run != [] && r.Lawful() && TrashInv(r, run[0])
    && (forall i :: 0 <= i < |run| ==> WellFormed(run[i]))
    && (forall i :: 0 <= i < |run| - 1 ==> TrashStep(r, run[i], run[i + 1]))
  }

  /** In every run over any ids, a file that starts at one content path `h` and nowhere else is
      at exactly one place in every later state: `h` itself, or a payload whose manifest is
      bound to `h`. Its bytes never change, and no id has two directories. */
  lemma {:induction false} RunKeepsFile(r: Rules, run: seq<State>, k: nat, o: nat, h: Path)
    requires TrashRun(r, run) && k < |run|
    requires Classify(r.naming, h) == Content && OnlyAt(run[0], o, h)
    ensures TrashInv(r, run[k]) && o in run[k].objects && run[k].objects[o] == run[0].objects[o]
    ensures exists q :: OnlyAt(run[k], o, q) &&
                        (q == h || exists a, id, m :: q == Payload(a, id) && r.Bound(run[k], a, id, m) && m.original == h)
  {
    RunKeepsHomes(r, run, k, o, h);
    RunKeepsInv(r, run, k);
    assert Home(r, run[0], h, h);
    var q :| OnlyAt(run[k], o, q);
    var p :| At(run[k].root, p) == IsFile(o) && Home(r, run[k], p, h);
    assert p == q;
  }

  lemma {:induction false} RunKeepsInv(r: Rules, run: seq<State>, k: nat)
    requires TrashRun(r, run) && k < |run|
    ensures TrashInv(r, run[k])
    ensures forall o :: o in run[0].objects ==> o in run[k].objects && run[k].objects[o] == run[0].objects[o]
  {
    if k > 0 {
      RunKeepsInv(r, run, k - 1);
      assert TrashStep(r, run[k - 1], run[k - 1 + 1]);
      StepKeeps(r, run[k - 1], run[k]);
    }
  }

  /** Neighbouring states of a run are one step apart. */
  lemma RunLinked(r: Rules, run: seq<State>, k: nat)
    requires TrashRun(r, run) && 0 < k < |run|
    ensures Linked(r, run[k - 1], run[k])
  {
    RunKeepsInv(r, run, k - 1);
    assert TrashStep(r, run[k - 1], run[k - 1 + 1]);
  }

  lemma {:induction false} RunKeepsHomes(r: Rules, run: seq<State>, k: nat, o: nat, h: Path)
    requires TrashRun(r, run) && k < |run|
    ensures Belongs(r, run[0], o, h) <==> Belongs(r, run[k], o, h)
    ensures o in run[0].objects && (exists p :: OnlyAt(run[0], o, p)) ==> exists q :: OnlyAt(run[k], o, q)
  {
    if k > 0 {
      RunKeepsHomes(r, run, k - 1, o, h);
      RunKeepsInv(r, run, k - 1);
      RunLinked(r, run, k);
      StepHomes(r, run[k - 1], run[k], o, h);
    }
  }

  lemma StepHomes(r: Rules, pre: State, post: State, o: nat, h: Path)
    requires Linked(r, pre, post)
    ensures Belongs(r, pre, o, h) <==> Belongs(r, post, o, h)
    ensures o in pre.objects && (exists p :: OnlyAt(pre, o, p)) ==> exists q :: OnlyAt(post, o, q)
  {
    StepKeeps(r, pre, post);
  }

  /** The manifest of a published id is the same file with the same bytes in both states. */
  ghost predicate SameManifest(pre: State, post: State, id: string) {
    var e := At(pre.root, ManifestPath(Items, id));
    && e.IsFile? && e.obj in pre.objects && At(post.root, ManifestPath(Items, id)) == e
    && e.obj in post.objects && post.objects[e.obj] == pre.objects[e.obj]
  }

  lemma StepKeepsPublished(r: Rules, pre: State, post: State, id: string)
    requires Linked(r, pre, post) && SameManifest(pre, pre, id)
    ensures SameManifest(pre, post, id)
  {
    StepKeeps(r, pre, post);
  }

  /** Every step of the run carries the manifest on. */
  ghost predicate Carries(run: seq<State>, id: string) {
    forall j, k :: 0 <= j < k < |run| && k == j + 1 && SameManifest(run[j], run[j], id) ==> SameManifest(run[j], run[k], id)
  }

  lemma RunCarries(r: Rules, run: seq<State>, id: string)
    requires TrashRun(r, run)
    ensures Carries(run, id)
  {
    forall j, k | 0 <= j < k < |run| && k == j + 1 && SameManifest(run[j], run[j], id) ensures SameManifest(run[j], run[k], id) {
      RunLinked(r, run, k);
      StepKeepsPublished(r, run[k - 1], run[k], id);
    }
  }

  lemma {:induction false} CarriedOn(run: seq<State>, i: nat, k: nat, id: string)
    requires Carries(run, id) && i <= k < |run| && SameManifest(run[i], run[i], id)
    ensures SameManifest(run[i], run[k], id)
    decreases k - i
  {
    if k > i {
      CarriedOn(run, i, k - 1, id);
      assert SameManifest(run[k - 1], run[k], id);
    }
  }

  /** Once published, the manifest of an id is the same file with the same bytes for ever. */
  lemma RunKeepsPublished(r: Rules, run: seq<State>, i: nat, k: nat, id: string, m: Manifest)
    requires TrashRun(r, run) && i <= k < |run| && r.Bound(run[i], Items, id, m)
    ensures SameManifest(run[i], run[k], id) && r.Bound(run[k], Items, id, m)
  {
    RunCarries(r, run, id);
    CarriedOn(run, i, k, id);
  }

  // ----- Trash and restore is the identity on content

  /** Outside the trash, only files at content paths ever come or go. */
  ghost predicate SameSkeleton(n: Naming, pre: Node, post: Node) {
    forall p :: !InTrash(p) ==>
      At(pre, p) == At(post, p) ||
      (Classify(n, p) == Content && (At(pre, p) == Absent || At(pre, p).IsFile?) && (At(post, p) == Absent || At(post, p).IsFile?))
  }

  lemma PrepareSkeleton(r: Rules, pre: State, post: State, id: string, m: Manifest, temp: string)
    requires PrepareStep(r, pre, post, id, m, temp)
    ensures SameSkeleton(r.naming, pre.root, post.root)
  {
    assert forall q :: q in [[".trash"], [".trash", "v1"], AreaPath(Staging), AreaPath(Items)] ==> InTrash(q);
    assert InTrash(ItemDir(Staging, id)) && InTrash(ItemPath(Staging, id, temp)) && InTrash(ManifestPath(Staging, id));
  }

  lemma FileMoveSkeleton(n: Naming, pre: Node, s: Path, d: Path)
    requires CanRename(pre, s, d) && At(pre, s).IsFile?
    requires InTrash(s) || Classify(n, s) == Content
    requires InTrash(d) || Classify(n, d) == Content
    ensures SameSkeleton(n, pre, Rename(pre, s, d))
  {
    RenameFile(pre, s, d);
  }

  lemma StepSkeleton(r: Rules, pre: State, post: State)
    requires Linked(r, pre, post)
    ensures SameSkeleton(r.naming, pre.root, post.root)
  {
    if post == pre {
    } else if exists id, m, temp :: PrepareStep(r, pre, post, id, m, temp) {
      var id, m, temp :| PrepareStep(r, pre, post, id, m, temp);
      PrepareSkeleton(r, pre, post, id, m, temp);
    } else if exists id, m :: StageStep(r, pre, post, id, m) {
      var id, m :| StageStep(r, pre, post, id, m);
      FileMoveSkeleton(r.naming, pre.root, m.original, Payload(Staging, id));
    } else if exists id, m :: RestoreStep(r, pre, post, id, m) {
      var id, m :| RestoreStep(r, pre, post, id, m);
      FileMoveSkeleton(r.naming, pre.root, Payload(Items, id), m.original);
    } else {
      var id, m :| PublishStep(r, pre, post, id, m);
      PublishAt(r, pre, post, id, m);
      forall p | ItemDir(Staging, id) <= p || ItemDir(Items, id) <= p ensures InTrash(p) {
        assert p[0] == ".trash";
      }
    }
  }

  lemma {:induction false} RunSkeleton(r: Rules, run: seq<State>, k: nat)
    requires TrashRun(r, run) && k < |run|
    ensures SameSkeleton(r.naming, run[0].root, run[k].root)
  {
    if k > 0 {
      RunSkeleton(r, run, k - 1);
      RunLinked(r, run, k);
      StepSkeleton(r, run[k - 1], run[k]);
    }
  }

  /** The file is a payload in the trash that belongs to the content path `h`. */
  ghost predicate Trashed(r: Rules, s: State, o: nat, h: Path) {
    exists a, id, m :: At(s.root, Payload(a, id)) == IsFile(o) && r.Bound(s, a, id, m) && m.original == h
  }

  /** The trash holds the same files for the same paths, in whatever items and stages. */
  ghost predicate SameTrash(r: Rules, a: State, b: State) {
    forall o, h :: Trashed(r, a, o, h) <==> Trashed(r, b, o, h)
  }

  /** Every file in the trash is at no other path. */
  ghost predicate TrashedOnce(r: Rules, s: State) {
    forall o, h :: Trashed(r, s, o, h) ==> exists p :: OnlyAt(s, o, p)
  }

  /** Every content file is at no other path. */
  ghost predicate ContentOnce(n: Naming, s: State) {
    forall p :: Classify(n, p) == Content && At(s.root, p).IsFile? ==> OnlyAt(s, At(s.root, p).obj, p)
  }

  /** A file that belongs to a content path is there or in the trash for it. */
  lemma BelongsWhere(r: Rules, s: State, o: nat, h: Path)
    requires r.Lawful()
    ensures Belongs(r, s, o, h) <==> (Classify(r.naming, h) == Content && At(s.root, h) == IsFile(o)) || Trashed(r, s, o, h)
  {
    if Classify(r.naming, h) == Content && At(s.root, h) == IsFile(o) {
      assert Home(r, s, h, h);
    }
    if a, id, m :| At(s.root, Payload(a, id)) == IsFile(o) && r.Bound(s, a, id, m) && m.original == h {
      assert Home(r, s, Payload(a, id), h);
    }
  }

  /** A file that is at one path only is not both in the trash and at its content path. */
  lemma OnePlace(r: Rules, s: State, o: nat, h: Path)
    requires r.Lawful() && Classify(r.naming, h) == Content && exists p :: OnlyAt(s, o, p)
    ensures Trashed(r, s, o, h) ==> At(s.root, h) != IsFile(o)
  {
    if Trashed(r, s, o, h) {
      var a, id, m :| At(s.root, Payload(a, id)) == IsFile(o) && r.Bound(s, a, id, m) && m.original == h;
      assert InTrash(Payload(a, id));
      ContentOutside(r.naming, h);
    }
  }

  lemma TrashedFileKnown(r: Rules, s: State, o: nat, h: Path)
    requires WellFormed(s)
    ensures Trashed(r, s, o, h) ==> o in s.objects
  {
  }

  /** A content path holds the same file at both ends. */
  lemma StaysPut(r: Rules, run: seq<State>, o: nat, h: Path)
    requires TrashRun(r, run) && Classify(r.naming, h) == Content
    requires SameTrash(r, run[0], run[|run| - 1]) && TrashedOnce(r, run[0])
    ensures At(run[0].root, h) == IsFile(o) <==> At(run[|run| - 1].root, h) == IsFile(o)
  {
    var k := |run| - 1;
    RunKeepsHomes(r, run, k, o, h);
    BelongsWhere(r, run[0], o, h);
    BelongsWhere(r, run[k], o, h);
    TrashedFileKnown(r, run[0], o, h);
    if Trashed(r, run[0], o, h) {
      OnePlace(r, run[0], o, h);
      OnePlace(r, run[k], o, h);
    }
  }

  /** What one path outside the trash shows at both ends of a run. */
  lemma SameAtBothEnds(r: Rules, run: seq<State>, p: Path)
    requires TrashRun(r, run) && !InTrash(p)
    requires SameTrash(r, run[0], run[|run| - 1]) && TrashedOnce(r, run[0])
    ensures At(run[0].root, p) == At(run[|run| - 1].root, p)
  {
    var k := |run| - 1;
    RunSkeleton(r, run, k);
    if Classify(r.naming, p) == Content {
      if At(run[0].root, p).IsFile? {
        StaysPut(r, run, At(run[0].root, p).obj, p);
      }
      if At(run[k].root, p).IsFile? {
        StaysPut(r, run, At(run[k].root, p).obj, p);
      }
    }
  }

  /** Any calls over any ids in any order, cut off anywhere, on a vault with any trash: if at
      the end the trash holds the same files for the same paths as at the start, the tree
      outside `.trash` is exactly what it was. */
  lemma RestoredRunIsIdentity(r: Rules, run: seq<State>)
    requires TrashRun(r, run) && SameTrash(r, run[0], run[|run| - 1]) && TrashedOnce(r, run[0])
    ensures var start, end := run[0].root, run[|run| - 1].root;
            && (forall p :: !InTrash(p) ==> At(start, p) == At(end, p))
            && start.entries - {".trash"} == end.entries - {".trash"}
  {
    var start, end := run[0].root, run[|run| - 1].root;
    forall p | !InTrash(p) ensures At(start, p) == At(end, p) {
      SameAtBothEnds(r, run, p);
    }
    SameOutside(start, end);
  }

  /** And only then, when content files too are at one path each. */
  lemma IdentityExactly(r: Rules, run: seq<State>)
    requires TrashRun(r, run) && TrashedOnce(r, run[0]) && ContentOnce(r.naming, run[0])
    ensures SameTrash(r, run[0], run[|run| - 1]) <==> forall p :: !InTrash(p) ==> At(run[0].root, p) == At(run[|run| - 1].root, p)
  {
    var k := |run| - 1;
    if SameTrash(r, run[0], run[k]) {
      RestoredRunIsIdentity(r, run);
    }
    if forall p :: !InTrash(p) ==> At(run[0].root, p) == At(run[k].root, p) {
      forall o, h ensures Trashed(r, run[0], o, h) <==> Trashed(r, run[k], o, h) {
        SameTrashedFile(r, run, o, h);
      }
    }
  }

  lemma SameTrashedFile(r: Rules, run: seq<State>, o: nat, h: Path)
    requires TrashRun(r, run) && TrashedOnce(r, run[0]) && ContentOnce(r.naming, run[0])
    requires forall p :: !InTrash(p) ==> At(run[0].root, p) == At(run[|run| - 1].root, p)
    ensures Trashed(r, run[0], o, h) <==> Trashed(r, run[|run| - 1], o, h)
  {
    var k := |run| - 1;
    RunKeepsHomes(r, run, k, o, h);
    BelongsWhere(r, run[0], o, h);
    BelongsWhere(r, run[k], o, h);
    if Classify(r.naming, h) == Content {
      ContentOutside(r.naming, h);
      if At(run[0].root, h) == IsFile(o) {
        assert OnlyAt(run[0], o, h);
        OnePlace(r, run[0], o, h);
        OnePlace(r, run[k], o, h);
      }
    }
  }

  lemma SameOutside(a: Node, b: Node)
    requires a.Dir? && b.Dir? && forall p :: !InTrash(p) ==> At(a, p) == At(b, p)
    ensures a.entries - {".trash"} == b.entries - {".trash"}
  {
    forall x | x != ".trash" ensures x in a.entries <==> x in b.entries {
      assert !InTrash([x]);
      SubOne(a, x);
      SubOne(b, x);
    }
    forall x | x != ".trash" && x in a.entries ensures a.entries[x] == b.entries[x] {
      forall q ensures At(a.entries[x], q) == At(b.entries[x], q) {
        assert !InTrash([x] + q);
        assert At(a, [x] + q) == At(b, [x] + q);
      }
      SameTree(a.entries[x], b.entries[x]);
    }
  }
}
