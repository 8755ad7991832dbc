// crates/myvault-core/src/index.rs: the derived index as a keyed table whose changes are all
// or nothing.

module Index {
  import opened Wrappers
  import opened Tree
  import opened Paths
  import opened Disk
  import opened Inventories

  datatype NoteRecord = NoteRecord(path: Path, title: string, contentHash: string, modifiedMs: int, byteLen: nat)

  datatype IndexError = InvalidRecord | Collision | Database

  const MAX_SQLITE_INTEGER := 0x7FFF_FFFF_FFFF_FFFF

  /** A record that may be stored, whatever else the table holds. */
  predicate RecordOk(n: Naming, record: NoteRecord) {
    Classify(n, record.path) == Content && record.contentHash != "" && record.byteLen <= MAX_SQLITE_INTEGER
  }

  /** The record is about an internal path, has no hash, or is too long for the table. */
  ghost predicate Unstorable(n: Naming, record: NoteRecord) {
    || (record.path != [] && (n.key(record.path[0]) == ".obsidian" || n.key(record.path[0]) == ".trash"))
    || record.contentHash == "" || record.byteLen > 0x7FFF_FFFF_FFFF_FFFF
  }

  type Rows = map<Path, NoteRecord>

  /** Primary key, uniqueness of the collision key, and only storable records. */
  ghost predicate TableOk(n: Naming, rows: Rows) {
    && (forall p :: p in rows ==> rows[p].path == p && RecordOk(n, rows[p]))
    && (forall p, q :: p in rows && q in rows && CollisionKey(n, p) == CollisionKey(n, q) ==> p == q)
  }

  /** Another path of the table has the key of `path`. */
  ghost predicate Taken(n: Naming, rows: Rows, path: Path) {
    exists p :: p in rows && p != path && CollisionKey(n, p) == CollisionKey(n, path)
  }

  method FindCollision(n: Naming, rows: Rows, path: Path) returns (r: bool)
    ensures r <==> Taken(n, rows, path)
  {
    var todo := rows.Keys;
    while todo != {}
      invariant todo <= rows.Keys
      invariant forall p :: p in rows && p !in todo && CollisionKey(n, p) == CollisionKey(n, path) ==> p == path
      decreases |todo|
    {
      var p :| p in todo;
      if p != path && CollisionKey(n, p) == CollisionKey(n, path) {
        return true;
      }
      todo := todo - {p};
    }
    return false;
  }

  /** What replacing all rows by `records`, in order, leaves: the last record of each path. */
  function Latest(records: seq<NoteRecord>): Rows {
    if records == [] then map[]
    else Latest(records[..|records| - 1])[records[|records| - 1].path := records[|records| - 1]]
  }

  /** Record `i` is the last one of its path. */
  ghost predicate LastOfPath(records: seq<NoteRecord>, i: nat) {
    i < |records| && forall j :: i < j < |records| ==> records[j].path != records[i].path
  }

  lemma {:induction false} LatestIsLast(records: seq<NoteRecord>, p: Path) returns (i: nat)
    ensures p in Latest(records) <==> exists j :: 0 <= j < |records| && records[j].path == p
    ensures p in Latest(records) ==> LastOfPath(records, i) && records[i].path == p && Latest(records)[p] == records[i]
  {
    i := 0;
    if records != [] {
      var k := |records| - 1;
      var init := records[..k];
      i := LatestIsLast(init, p);
      assert forall j :: 0 <= j < k ==> init[j] == records[j];
      if records[k].path == p {
        i := k;
      } else if p in Latest(init) {
        assert records[i] == init[i];
      }
    }
  }

  /** All records are storable and none shares its key with another path among them. */
  ghost predicate Rebuildable(n: Naming, records: seq<NoteRecord>) {
    && (forall i :: 0 <= i < |records| ==> RecordOk(n, records[i]))
    && (forall i, j :: 0 <= i < |records| && 0 <= j < |records| && CollisionKey(n, records[i].path) == CollisionKey(n, records[j].path) ==>
          records[i].path == records[j].path)
  }

  lemma TakenByEarlier(n: Naming, records: seq<NoteRecord>, k: nat)
    requires k < |records| && Rebuildable(n, records)
    ensures !Taken(n, Latest(records[..k]), records[k].path)
  {
    forall p | p in Latest(records[..k]) && CollisionKey(n, p) == CollisionKey(n, records[k].path) ensures p == records[k].path {
      var i := LatestIsLast(records[..k], p);
      assert records[i] == records[..k][i];
    }
  }

  lemma StoredIsRebuildable(n: Naming, records: seq<NoteRecord>)
    requires TableOk(n, Latest(records)) && forall i :: 0 <= i < |records| ==> RecordOk(n, records[i])
    ensures Rebuildable(n, records)
  {
    forall i | 0 <= i < |records| ensures records[i].path in Latest(records) {
      var _ := LatestIsLast(records, records[i].path);
    }
  }

  class DerivedIndex {
    const naming: Naming
    /** No database failure happens. */
    const calm: bool
    var rows: Rows

    ghost predicate Valid()
      reads this
    {
      TableOk(naming, rows)
    }

    constructor (naming: Naming, calm: bool)
      ensures Valid() && this.naming == naming && this.calm == calm && rows == map[]
    {
      this.naming := naming;
      this.calm := calm;
      rows := map[];
    }

    method DatabaseFails() returns (bad: bool)
      ensures calm ==> !bad
    {
      bad := *;
      bad := bad && !calm;
    }

    /** `insert_record`, inside a transaction that sees `table`. */
    method InsertRecord(table: Rows, record: NoteRecord) returns (r: Result<Rows, IndexError>)
      requires TableOk(naming, table)
      ensures r.Ok? ==> RecordOk(naming, record) && !Taken(naming, table, record.path) &&
                        r.value == table[record.path := record] && TableOk(naming, r.value)
      ensures calm && RecordOk(naming, record) && !Taken(naming, table, record.path) ==> r.Ok?
      // Invalid are exactly the records of `.obsidian` and `.trash`, those without a hash, and
      // those whose length SQLite cannot hold.
      ensures r == Err(InvalidRecord) <==> Unstorable(naming, record)
      ensures r == Err(Collision) ==> Taken(naming, table, record.path)
      ensures calm && !Unstorable(naming, record) ==> (r == Err(Collision) <==> Taken(naming, table, record.path))
    {
      if Classify(naming, record.path) != Content || record.contentHash == "" || record.byteLen > MAX_SQLITE_INTEGER {
        return Err(InvalidRecord);
      }
      var bad := DatabaseFails();
      if bad { return Err(Database); }
      var taken := FindCollision(naming, table, record.path);
      if taken { return Err(Collision); }
      bad := DatabaseFails();
      if bad { return Err(Database); }
      return Ok(table[record.path := record]);
    }

    method Commit(table: Rows) returns (r: Result<(), IndexError>)
      requires TableOk(naming, table)
      modifies this`rows
      ensures rows == if r.Ok? then table else old(rows)
      ensures r.Err? ==> r.error == Database && !calm
    {
      var bad := DatabaseFails();
      if bad { return Err(Database); }
      rows := table;
      return Ok(());
    }

    method Upsert(record: NoteRecord) returns (r: Result<(), IndexError>)
      requires Valid()
      modifies this`rows
      ensures Valid()
      ensures rows == if r.Ok? then old(rows)[record.path := record] else old(rows)
      ensures r.Ok? ==> RecordOk(naming, record) && !Taken(naming, old(rows), record.path)
      ensures calm ==> (r.Ok? <==> RecordOk(naming, record) && !Taken(naming, old(rows), record.path))
      ensures r == Err(InvalidRecord) <==> Unstorable(naming, record)
      ensures calm && !Unstorable(naming, record) ==> (r == Err(Collision) <==> Taken(naming, old(rows), record.path))
    {
      var inserted := InsertRecord(rows, record);
      if inserted.Err? { return Err(inserted.error); }
      r := Commit(inserted.value);
    }

    method Remove(path: Path) returns (r: Result<(), IndexError>)
      requires Valid()
      modifies this`rows
      ensures Valid()
      ensures rows == if r.Ok? then old(rows) - {path} else old(rows)
      ensures calm ==> r.Ok?
    {
      r := Commit(rows - {path});
    }

    /** All rows are replaced or none is, and with no database failure the call succeeds
        exactly on records that can live together. */
    method Rebuild(records: seq<NoteRecord>) returns (r: Result<(), IndexError>)
      requires Valid()
      modifies this`rows
      ensures Valid()
      ensures rows == if r.Ok? then Latest(records) else old(rows)
      ensures r.Ok? ==> Rebuildable(naming, records)
      ensures calm ==> (r.Ok? <==> Rebuildable(naming, records))
      ensures r.Err? && r.error != Database ==> !Rebuildable(naming, records)
    {
      var table: Rows := map[];
      var i := 0;
      while i < |records|
        invariant 0 <= i <= |records| && rows == old(rows)
        invariant table == Latest(records[..i]) && TableOk(naming, table)
        invariant forall k :: 0 <= k < i ==> RecordOk(naming, records[k])
      {
        assert records[..i + 1][..i] == records[..i];
        if Rebuildable(naming, records) {
          TakenByEarlier(naming, records, i);
        }
        var inserted := InsertRecord(table, records[i]);
        if inserted.Err? { return Err(inserted.error); }
        table := inserted.value;
        i := i + 1;
      }
      assert records[..i] == records;
      StoredIsRebuildable(naming, records);
      r := Commit(table);
    }
  }

  /** An inventory that succeeded is always rebuildable, whatever the tree: its paths are
      content paths and its keys are distinct. */
  lemma {:induction false} InventoryIsRebuildable(n: Naming, objects: map<nat, FileObject>, markdown: string -> bool, root: Node,
                               es: seq<InventoryEntry>, records: seq<NoteRecord>)
    requires root.Dir? && Lists(objects, markdown, Shown(n, root, []), [], es) && KeysDistinct(n, Shown(n, root, []))
    requires |records| == |es| && forall i :: 0 <= i < |es| ==>
               records[i].path == es[i].path && records[i].contentHash != "" && records[i].byteLen <= MAX_SQLITE_INTEGER
    ensures Rebuildable(n, records)
    ensures forall p :: p in Latest(records) <==> At(root, p).IsFile? && Classify(n, p) == Content
  {
    var shown := Shown(n, root, []);
    KeysApartOfListing(n, objects, markdown, shown, es);
    forall i | 0 <= i < |es| ensures At(shown, es[i].path).IsFile? && RecordOk(n, records[i]) {
      assert es[i] in es && Records(objects, markdown, shown, [], es[i]);
      assert es[i].path[0..] == es[i].path;
      ShownAt(n, root, es[i].path);
    }
    forall p ensures p in Latest(records) <==> At(root, p).IsFile? && Classify(n, p) == Content {
      var k := LatestIsLast(records, p);
      ShownAt(n, root, p);
      if At(shown, p).IsFile? {
        var e := Recorded(objects, markdown, p, At(shown, p).obj);
        assert p[0..] == p;
        assert Records(objects, markdown, shown, [], e);
        var i :| 0 <= i < |es| && es[i] == e;
        assert records[i].path == p;
      }
    }
  }

  /** On a vault whose siblings are distinct, inventory and rebuild go through within the
      limits, and the index then holds exactly the content files. */
  method RebuildFromVault(index: DerivedIndex, objects: map<nat, FileObject>, markdown: string -> bool, root: Node, limits: InventoryLimits,
                          describe: InventoryEntry -> NoteRecord) returns (ok: bool)
    requires index.Valid() && index.calm && index.naming.Lawful() && PlainKeys(index.naming, root)
    requires root.Dir? && LegalNames(root) && SiblingsDistinct(index.naming, root)
    requires Acceptable(index.naming, limits, Shown(index.naming, root, []), [], 0)
    requires forall e :: describe(e).path == e.path && describe(e).contentHash != "" && describe(e).byteLen <= MAX_SQLITE_INTEGER
    modifies index`rows
    ensures ok && index.Valid()
    ensures forall p :: p in index.rows <==> At(root, p).IsFile? && Classify(index.naming, p) == Content
  {
    SiblingsGiveKeysDistinct(index.naming, root);
    var listed := Inventory(index.naming, objects, markdown, root, limits);
    var es := listed.value;
    var records := seq(|es|, i requires 0 <= i < |es| => describe(es[i]));
    InventoryIsRebuildable(index.naming, objects, markdown, root, es, records);
    var r := index.Rebuild(records);
    ok := r.Ok?;
  }
}
