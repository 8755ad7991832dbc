// crates/myvault-core/src/vault.rs: listing one page of published Trash items, with what can be
// told about each of them without hashing its payload.

module TrashListing {
  import opened Wrappers
  import opened Order
  import opened Tree
  import opened Paths
  import opened Disk
  import opened Mutations
  import opened TrashProtocol
  import opened TrashCalls
  import opened Paging

  const MAX_TRASH_PAGE_SIZE := 100
  const MAX_TRASH_LIST_SCAN := 8_192

  /** An item whose manifest could be read and fits its payload, or one that is only known to
      be there. */
  datatype Evidence = Supported(id: string, manifest: Manifest, digest: string) | Opaque(id: string)

  datatype TrashPage = TrashPage(entries: seq<Evidence>, invalidNames: nat, nextAfter: Option<string>, hasMore: bool, scanned: nat)

  /** A complete published item, as far as names, manifest, link count and length tell. */
  ghost predicate Listable(r: Rules, s: State, id: string, m: Manifest) {
    && ItemShape(r, s, Items, id) && r.Bound(s, Items, id, m)
    && At(s.root, Payload(Items, id)).IsFile? && At(s.root, Payload(Items, id)).obj in s.objects
    && var f := s.objects[At(s.root, Payload(Items, id)).obj];
    && f.links == 1 && |f.bytes| == m.revision.byteLen
  }

  /** `is_opaque_list_evidence_error` */
  predicate IsOpaque(e: Error) {
    || e == InvalidRelativePath || e == SymlinkRejected || e == InvalidTrashManifest || e == NonCanonicalTrashManifest
    || e == TrashManifestDigestMismatch || e == InvalidTrashTopology || e == InvalidRevision || e == ResourceLimitExceeded
  }

  /** `inspect_list_item`: an item is supported exactly when it is listable, and without a
      failure every other item is opaque. */
  method InspectItem(t: TrashStore, id: string) returns (r: Result<Manifest, Error>)
    requires t.Valid()
    ensures r.Ok? ==> Listable(t.rules, t.vault.View(), id, r.value)
    ensures t.vault.calm && (exists m :: Listable(t.rules, t.vault.View(), id, m)) ==> r.Ok?
    ensures t.vault.calm && r.Err? ==> IsOpaque(r.error)
    // A failure to read is never taken for evidence.
    ensures r.Err? && IsOpaque(r.error) ==> forall m :: !Listable(t.rules, t.vault.View(), id, m)
  {
    match At(t.vault.root, ItemDir(Items, id)) {
      case IsDir =>
      case IsSymlink => return Err(SymlinkRejected);
      case _ => return Err(InvalidRelativePath);
    }
    var names := ScanForListing(t, id);
    if names.Err? { return Err(names.error); }
    var stored := ReadForListing(t, id);
    if stored.Err? { return Err(stored.error); }
    var bad := t.vault.Fault();
    if bad { return Err(Io); }
    match At(t.vault.root, Payload(Items, id)) {
      case IsFile(o) =>
        var f := t.vault.objects[o];
        if f.links != 1 || |f.bytes| != stored.value.revision.byteLen {
          OneManifest(t.rules, t.vault.View(), id, stored.value);
          return Err(InvalidTrashTopology);
        }
        return Ok(stored.value);
      case _ => return Err(InvalidTrashTopology);
    }
  }

  /** A listing with another manifest is a listing with this one. */
  lemma OneManifest(r: Rules, s: State, id: string, m: Manifest)
    requires r.Bound(s, Items, id, m)
    ensures forall n :: Listable(r, s, id, n) ==> n == m
  {
    forall n | Listable(r, s, id, n) ensures n == m {
      BoundUnique(r, s, Items, id, m, n);
    }
  }

  /** The names of the item: allowed ones only, with a manifest and a payload among them. */
  method ScanForListing(t: TrashStore, id: string) returns (r: Result<(), Error>)
    requires t.Valid() && At(t.vault.root, ItemDir(Items, id)) == IsDir
    ensures r.Ok? ==> && ItemShape(t.rules, t.vault.View(), Items, id)
                      && At(t.vault.root, ManifestPath(Items, id)) != Absent && At(t.vault.root, Payload(Items, id)) != Absent
    ensures t.vault.calm && ItemShape(t.rules, t.vault.View(), Items, id) && At(t.vault.root, ManifestPath(Items, id)) != Absent &&
            At(t.vault.root, Payload(Items, id)) != Absent
            ==> r.Ok?
    ensures t.vault.calm && r.Err? ==> r.error == InvalidTrashTopology
    ensures r.Err? && IsOpaque(r.error) ==>
              !ItemShape(t.rules, t.vault.View(), Items, id) || At(t.vault.root, ManifestPath(Items, id)) == Absent ||
              At(t.vault.root, Payload(Items, id)) == Absent
  {
    var scan := t.ScanItem(Items, id);
    if scan.Err? { return Err(scan.error); }
    if !scan.value.0 || !scan.value.1 { return Err(InvalidTrashTopology); }
    return Ok(());
  }

  method ReadForListing(t: TrashStore, id: string) returns (r: Result<Manifest, Error>)
    requires t.Valid() && At(t.vault.root, ManifestPath(Items, id)) != Absent
    ensures r.Ok? ==> t.rules.Bound(t.vault.View(), Items, id, r.value)
    ensures t.vault.calm && (exists m :: t.rules.Bound(t.vault.View(), Items, id, m)) ==> r.Ok?
    ensures t.vault.calm && r.Err? ==> IsOpaque(r.error)
    ensures r.Err? && IsOpaque(r.error) ==> forall m :: !t.rules.Bound(t.vault.View(), Items, id, m)
  {
    r := t.ReadManifest(Items, id);
  }

  // ----- The page

  /** `open_optional_items_directory`: whether the items directory exists. */
  method FindItems(t: TrashStore) returns (r: Result<bool, Error>)
    requires t.Valid()
    ensures r.Ok? ==> At(t.vault.root, AreaPath(Items)) == if r.value then IsDir else Absent
    ensures r.Ok? ==> forall i :: 0 <= i < |AreaPath(Items)| && At(t.vault.root, AreaPath(Items)[..i]) == IsDir ==>
                        NoCollision(t.vault.naming, t.vault.root, AreaPath(Items)[..i], AreaPath(Items)[i])
    ensures t.vault.calm && Creatable(t.vault.naming, t.vault.root, AreaPath(Items)) ==> r.Ok?
  {
    var p := AreaPath(Items);
    var i := 0;
    while i < |p|
      invariant 0 <= i <= |p| && At(t.vault.root, p[..i]) == IsDir
      invariant forall j :: 0 <= j < i ==> NoCollision(t.vault.naming, t.vault.root, p[..j], p[j])
    {
      assert p[..i + 1] == p[..i] + [p[i]];
      if Creatable(t.vault.naming, t.vault.root, p) {
        assert NoCollision(t.vault.naming, t.vault.root, p[..i], p[i]);
      }
      var c := t.vault.RejectSiblingCollision(p[..i], p[i]);
      if c.Err? { return Err(c.error); }
      match At(t.vault.root, p[..i] + [p[i]]) {
        case IsDir =>
        case Absent =>
          GoneBelow(t.vault.root, p, i + 1);
          forall j | i < j < |p| ensures At(t.vault.root, p[..j]) == Absent {
            assert p[..j][..i + 1] == p[..i + 1];
            GoneBelow(t.vault.root, p[..j], i + 1);
          }
          return Ok(false);
        case IsSymlink => return Err(SymlinkRejected);
        case _ => return Err(InvalidRelativePath);
      }
      i := i + 1;
    }
    assert p[..i] == p;
    return Ok(true);
  }

  lemma GoneBelow(root: Node, p: Path, k: nat)
    requires k <= |p| && At(root, p[..k]) == Absent
    ensures At(root, p) == Absent
  {
    if k < |p| {
      NothingBelow(root, p[..k], p);
    } else {
      assert p[..k] == p;
    }
  }

  /** The ids among the names of the items directory, and how many other names there are. */
  method CollectIds(names: set<string>, canonical: string -> bool) returns (r: Option<(set<string>, nat)>)
    ensures r.Some? <==> |names| <= MAX_TRASH_LIST_SCAN
    ensures r.Some? ==> (forall x :: x in r.value.0 <==> x in names && canonical(x)) && r.value.1 + |r.value.0| == |names|
  {
    var todo, scanned, invalid := names, 0, 0;
    var ids: set<string> := {};
    while todo != {}
      invariant todo <= names && scanned + |todo| == |names| && scanned <= MAX_TRASH_LIST_SCAN
      invariant forall x :: x in ids <==> x in names && x !in todo && canonical(x)
      invariant invalid + |ids| == scanned
      decreases |todo|
    {
      var name :| name in todo;
      scanned := scanned + 1;
      if scanned > MAX_TRASH_LIST_SCAN {
        return None;
      }
      if canonical(name) {
        ids := ids + {name};
      } else {
        invalid := invalid + 1;
      }
      todo := todo - {name};
    }
    return Some((ids, invalid));
  }

  /** What an entry of a page tells is true of its item. */
  ghost predicate Truthful(t: TrashStore, e: Evidence)
    reads t, t.vault
  {
    && (e.Supported? ==> Listable(t.rules, t.vault.View(), e.id, e.manifest) && e.digest == t.rules.digest(t.rules.encode(e.manifest)))
    && (e.Opaque? ==> forall m :: !Listable(t.rules, t.vault.View(), e.id, m))
  }

  /** The loop over the selected ids. */
  method Inspect(t: TrashStore, ids: seq<string>) returns (r: Result<seq<Evidence>, Error>)
    requires t.Valid()
    ensures r.Ok? ==> Describes(t, ids, r.value)
    ensures t.vault.calm ==> r.Ok?
  {
    var entries: seq<Evidence> := [];
    var i := 0;
    while i < |ids|
      invariant 0 <= i <= |ids| && |entries| == i
      invariant forall k :: 0 <= k < i ==> entries[k].id == ids[k] && Truthful(t, entries[k])
    {
      var inspected := InspectItem(t, ids[i]);
      match inspected {
        case Ok(m) => entries := entries + [Supported(ids[i], m, t.rules.digest(t.rules.encode(m)))];
        case Err(error) =>
          if !IsOpaque(error) { return Err(error); }
          entries := entries + [Opaque(ids[i])];
      }
      i := i + 1;
    }
    return Ok(entries);
  }

  /** The canonical ids of the items directory, in order. */
  ghost predicate IdsOf(t: TrashStore, canonical: string -> bool, ids: seq<string>)
    reads t, t.vault
  {
    Increasing(ids) && forall x :: x in ids <==> x in Names(t.vault.root, AreaPath(Items)) && canonical(x)
  }

  /** The page is cut from these ids, all other names are counted, and each entry is truthful. */
  ghost predicate Answers(t: TrashStore, ids: seq<string>, after: Option<string>, limit: nat, page: TrashPage)
    reads t, t.vault
  {
    var expected := PageOf(ids, after, limit);
    && page.scanned == |Names(t.vault.root, AreaPath(Items))| == page.invalidNames + |ids| && page.scanned <= MAX_TRASH_LIST_SCAN
    && page.nextAfter == expected.nextAfter && page.hasMore == expected.hasMore && Describes(t, expected.entries, page.entries)
  }

  ghost predicate Describes(t: TrashStore, ids: seq<string>, entries: seq<Evidence>)
    reads t, t.vault
  {
    |entries| == |ids| && forall i :: 0 <= i < |ids| ==> entries[i].id == ids[i] && Truthful(t, entries[i])
  }

  /** The items directory exists or could, and is not too large to list. */
  ghost predicate ItemsListable(t: TrashStore)
    reads t, t.vault
  {
    Creatable(t.vault.naming, t.vault.root, AreaPath(Items)) && |Names(t.vault.root, AreaPath(Items))| <= MAX_TRASH_LIST_SCAN
  }

  /** `list_items_page`: the page is cut from the canonical ids of the items directory in order,
      other names are counted, and each entry is truthful. `canonical` is `TrashId::parse`. */
  method ListPage(t: TrashStore, canonical: string -> bool, after: Option<string>, limit: nat)
    returns (r: Result<TrashPage, PageError>, ghost ids: seq<string>)
    requires t.Valid()
    ensures r.Ok? ==> 1 <= limit <= MAX_TRASH_PAGE_SIZE && IdsOf(t, canonical, ids) && Answers(t, ids, after, limit, r.value) &&
                      Full(r.value.entries, r.value.hasMore, limit)
    ensures t.vault.calm && 1 <= limit <= MAX_TRASH_PAGE_SIZE && ItemsListable(t) ==> r.Ok?
  {
    ids := [];
    if !(1 <= limit <= MAX_TRASH_PAGE_SIZE) { return Err(InvalidLimit), ids; }
    var found := FindItems(t);
    if found.Err? { return Err(Unavailable(found.error)), ids; }
    if !found.value {
      assert Names(t.vault.root, AreaPath(Items)) == {};
      return Ok(TrashPage([], 0, None, false, 0)), ids;
    }
    var names := Names(t.vault.root, AreaPath(Items));
    var collected := CollectIds(names, canonical);
    if collected.None? { return Err(Unavailable(ResourceLimitExceeded)), ids; }
    var sorted := Sort(collected.value.0);
    ids := sorted;
    var page := CutPage(sorted, after, limit);
    var entries := Inspect(t, page.entries);
    if entries.Err? { return Err(Unavailable(entries.error)), ids; }
    return Ok(TrashPage(entries.value, collected.value.1, page.nextAfter, page.hasMore, |names|)), ids;
  }

  /** `list_trash` of the service: the cursor must be the text of an id. */
  method ListTrash(t: TrashStore, canonical: string -> bool, after: Option<string>, limit: nat)
    returns (r: Result<TrashPage, PageError>, ghost ids: seq<string>)
    requires t.Valid()
    ensures !(1 <= limit <= MAX_TRASH_PAGE_SIZE) ==> r == Err(InvalidLimit)
    ensures 1 <= limit <= MAX_TRASH_PAGE_SIZE && after.Some? && !canonical(after.value) ==> r == Err(InvalidCursor)
    ensures r.Ok? ==> && 1 <= limit <= MAX_TRASH_PAGE_SIZE && (after.Some? ==> canonical(after.value))
                      && IdsOf(t, canonical, ids) && Answers(t, ids, after, limit, r.value)
    ensures t.vault.calm && 1 <= limit <= MAX_TRASH_PAGE_SIZE && (after.Some? ==> canonical(after.value)) && ItemsListable(t) ==> r.Ok?
  {
    ids := [];
    if !(1 <= limit <= MAX_TRASH_PAGE_SIZE) { return Err(InvalidLimit), ids; }
    if after.Some? && !canonical(after.value) { return Err(InvalidCursor), ids; }
    r, ids := ListPage(t, canonical, after, limit);
  }

  /** The page after the first `k` ids of a trash that did not change. */
  method NextTrashPage(t: TrashStore, canonical: string -> bool, after: Option<string>, limit: nat, ghost ids: seq<string>, ghost k: nat)
    returns (r: Result<TrashPage, PageError>)
    requires t.Valid() && IdsOf(t, canonical, ids) && k <= |ids| && Behind(ids, after) == ids[k..] && (after.Some? ==> after.value in ids)
    ensures r.Ok? ==> Answers(t, ids, after, limit, r.value)
    ensures r.Ok? ==> var page := PageOf(ids, after, limit);
                      Advanced(ids, ids[..k] + page.entries, page) && (page.hasMore ==> page.entries != [])
    ensures t.vault.calm && 1 <= limit <= MAX_TRASH_PAGE_SIZE && ItemsListable(t) ==> r.Ok?
  {
    ghost var again;
    r, again := ListTrash(t, canonical, after, limit);
    if r.Ok? {
      IncreasingUnique(ids, again);
      NextPage(ids, k, after, limit);
    }
  }

  /** Asking for the next page until no more is promised: on a trash that does not change this
      ends with a truthful entry for every canonical id, once each and in order; and no call
      fails when nothing fails. */
  method BrowseTrash(t: TrashStore, canonical: string -> bool, limit: nat) returns (r: Result<seq<Evidence>, PageError>, ghost ids: seq<string>)
    requires t.Valid()
    ensures r.Ok? ==> IdsOf(t, canonical, ids) && Describes(t, ids, r.value)
    ensures t.vault.calm && 1 <= limit <= MAX_TRASH_PAGE_SIZE && ItemsListable(t) ==> r.Ok?
  {
    var page;
    page, ids := ListTrash(t, canonical, None, limit);
    if page.Err? { return Err(page.error), ids; }
    BehindAll(ids, None);
    NextPage(ids, 0, None, limit);
    assert ids[..0] + PageOf(ids, None, limit).entries == PageOf(ids, None, limit).entries;
    r := BrowseRest(t, canonical, limit, page.value, ids);
  }

  /** The calls after the first page. */
  method BrowseRest(t: TrashStore, canonical: string -> bool, limit: nat, first: TrashPage, ghost ids: seq<string>)
    returns (r: Result<seq<Evidence>, PageError>)
    requires t.Valid() && IdsOf(t, canonical, ids) && Answers(t, ids, None, limit, first)
    requires Advanced(ids, PageOf(ids, None, limit).entries, PageOf(ids, None, limit))
    ensures r.Ok? ==> Describes(t, ids, r.value)
    ensures t.vault.calm && 1 <= limit <= MAX_TRASH_PAGE_SIZE && ItemsListable(t) ==> r.Ok?
  {
    ghost var seen := PageOf(ids, None, limit);
    ghost var shown := seen.entries;
    var all, more, after := first.entries, first.hasMore, first.nextAfter;
    while more
      invariant more == seen.hasMore && after == seen.nextAfter
      invariant Advanced(ids, shown, seen) && Describes(t, shown, all)
      decreases |ids| - |shown|
    {
      var page := NextTrashPage(t, canonical, after, limit, ids, |shown|);
      if page.Err? { return Err(page.error); }
      seen := PageOf(ids, after, limit);
      DescribesMore(t, shown, all, seen.entries, page.value.entries);
      shown, all := shown + seen.entries, all + page.value.entries;
      more, after := page.value.hasMore, page.value.nextAfter;
    }
    assert shown == ids;
    return Ok(all);
  }

  lemma DescribesMore(t: TrashStore, ids: seq<string>, entries: seq<Evidence>, moreIds: seq<string>, moreEntries: seq<Evidence>)
    requires Describes(t, ids, entries) && Describes(t, moreIds, moreEntries)
    ensures Describes(t, ids + moreIds, entries + moreEntries)
  {
  }
}
