// crates/myvault-core/src/vault.rs: the bounded inventory of content files, and why siblings
// with distinct keys make it free of collisions.

module Inventories {
  import opened Wrappers
  import opened Order
  import opened Tree
  import opened Paths
  import opened Disk

  datatype InventoryLimits = InventoryLimits(maxDepth: nat, maxEntries: nat)

  datatype InventoryEntry = InventoryEntry(path: Path, markdown: bool, size: nat)

  ghost predicate LegalPath(p: Path) {
    forall c :: c in p ==> c != "" && c != "." && c != ".." && '/' !in c
  }

  /** Names that a filesystem can hold. */
  ghost predicate LegalNames(root: Node) {
    forall p :: At(root, p) != Absent ==> LegalPath(p)
  }

  /** What the walk looks at: at the top level internal trees are left out. */
  function Shown(n: Naming, node: Node, prefix: Path): Node {
    if prefix == [] && node.Dir? then Dir(map x | x in node.entries && ClassifyComponent(n, x) == Content :: node.entries[x])
    else node
  }

  /** All paths below a node. */
  ghost function Inside(node: Node): set<Path>
    decreases node
  {
    if node.Dir? then set x, q | x in node.entries && q in {[]} + Inside(node.entries[x]) :: [x] + q else {}
  }

  lemma {:induction false} InsideAt(node: Node, p: Path)
    ensures p in Inside(node) <==> p != [] && At(node, p) != Absent
    decreases node
  {
    if p != [] && node.Dir? && p[0] in node.entries {
      var child := node.entries[p[0]];
      InsideAt(child, p[1..]);
      InsideStep(node, p);
      assert At(child, []) == Shape(child);
      assert At(node, p) == At(child, p[1..]);
    }
  }

  lemma InsideStep(node: Node, p: Path)
    requires p != [] && node.Dir? && p[0] in node.entries
    ensures p in Inside(node) <==> p[1..] in {[]} + Inside(node.entries[p[0]])
  {
    assert p == [p[0]] + p[1..];
    if p in Inside(node) {
      var x, q :| x in node.entries && q in {[]} + Inside(node.entries[x]) && p == [x] + q;
      assert p[0] == x && p[1..] == q;
    }
  }

  /** Everything below one child, seen from the parent. */
  ghost function Branch(x: string, child: Node): set<Path> {
    set q | q in {[]} + Inside(child) :: [x] + q
  }

  lemma BranchSize(x: string, s: set<Path>)
    ensures |set q | q in s :: [x] + q| == |s|
    decreases s
  {
    var image := set q | q in s :: [x] + q;
    if s != {} {
      var q :| q in s;
      BranchSize(x, s - {q});
      assert image == (set r | r in s - {q} :: [x] + r) + {[x] + q};
      assert forall r :: [x] + r == [x] + q ==> r == q by {
        forall r | [x] + r == [x] + q ensures r == q { assert r == ([x] + r)[1..] == ([x] + q)[1..]; }
      }
    }
  }

  lemma BranchAt(x: string, child: Node, p: Path)
    ensures p in Branch(x, child) <==> p != [] && p[0] == x && At(child, p[1..]) != Absent
  {
    if p != [] {
      InsideAt(child, p[1..]);
      assert At(child, []) == Shape(child);
      if p[0] == x {
        assert p == [x] + p[1..];
      }
    }
  }

  lemma InsideAddAt(entries: map<string, Node>, x: string, child: Node, p: Path)
    requires x !in entries
    ensures p in Inside(Dir(entries[x := child])) <==> p in Inside(Dir(entries)) || p in Branch(x, child)
    ensures !(p in Inside(Dir(entries)) && p in Branch(x, child))
  {
    InsideAt(Dir(entries[x := child]), p);
    InsideAt(Dir(entries), p);
    BranchAt(x, child, p);
  }

  lemma InsideAdd(entries: map<string, Node>, x: string, child: Node)
    requires x !in entries
    ensures Inside(Dir(entries[x := child])) == Inside(Dir(entries)) + Branch(x, child)
    ensures |Inside(Dir(entries[x := child]))| == |Inside(Dir(entries))| + 1 + |Inside(child)|
  {
    forall p {
      InsideAddAt(entries, x, child, p);
    }
    var before, added := Inside(Dir(entries)), Branch(x, child);
    assert Inside(Dir(entries[x := child])) == before + added;
    assert before !! added;
    BranchSize(x, {[]} + Inside(child));
    InsideAt(child, []);
  }

  /** One entry meets the walk's demands: its path is portable, it is no link, and a directory
      is not too deep. */
  ghost predicate EntryOk(n: Naming, limits: InventoryLimits, path: Path, e: Entry) {
    Canonical(n, path) && e != IsSymlink && (e == IsDir ==> |path| <= limits.maxDepth)
  }

  ghost predicate AllOk(n: Naming, limits: InventoryLimits, node: Node, prefix: Path) {
    forall p :: p != [] && At(node, p) != Absent ==> EntryOk(n, limits, prefix + p, At(node, p))
  }

  /** The entry the walk records for the file at `path`. */
  function Recorded(objects: map<nat, FileObject>, markdown: string -> bool, path: Path, o: nat): InventoryEntry
    requires path != []
  {
    InventoryEntry(path, markdown(Leaf(path)), if o in objects then |objects[o].bytes| else 0)
  }

  /** `e` records a regular file below `node`. */
  ghost predicate Records(objects: map<nat, FileObject>, markdown: string -> bool, node: Node, prefix: Path, e: InventoryEntry) {
    && |prefix| < |e.path| && prefix <= e.path
    && At(node, e.path[|prefix|..]).IsFile?
    && e == Recorded(objects, markdown, e.path, At(node, e.path[|prefix|..]).obj)
  }

  /** `output` lists exactly the regular files below `node`, once each. */
  ghost predicate Lists(objects: map<nat, FileObject>, markdown: string -> bool, node: Node, prefix: Path, output: seq<InventoryEntry>) {
    && (forall e :: e in output <==> Records(objects, markdown, node, prefix, e))
    && (forall i, j :: 0 <= i < j < |output| ==> output[i].path != output[j].path)
  }

  lemma PartSize(part: map<string, Node>, entries: map<string, Node>, x: string)
    requires forall y :: y in part ==> y in entries && part[y] == entries[y]
    requires x in entries && x !in part
    ensures |Inside(Dir(part))| + 1 + |Inside(entries[x])| <= |Inside(Dir(entries))|
  {
    InsideAdd(part, x, entries[x]);
    var grown := part[x := entries[x]];
    forall p | p in Inside(Dir(grown)) ensures p in Inside(Dir(entries)) {
      InsideAt(Dir(grown), p);
      InsideAt(Dir(entries), p);
    }
    SubsetSize(Inside(Dir(grown)), Inside(Dir(entries)));
  }

  lemma NamesInside(entries: map<string, Node>)
    ensures |entries.Keys| <= |Inside(Dir(entries))|
  {
    var tops := set x | x in entries :: [x];
    KeysAsPaths(entries.Keys);
    forall p | p in tops ensures p in Inside(Dir(entries)) {
      InsideAt(Dir(entries), p);
      SubOne(Dir(entries), p[0]);
    }
    assert tops == set x | x in entries.Keys :: [x];
    SubsetSize(tops, Inside(Dir(entries)));
  }

  lemma KeysAsPaths(keys: set<string>)
    ensures |set x | x in keys :: [x]| == |keys|
  {
    if keys != {} {
      var k :| k in keys;
      KeysAsPaths(keys - {k});
      assert (set x | x in keys :: [x]) == (set x | x in keys - {k} :: [x]) + {[k]};
      assert [k] !in (set x | x in keys - {k} :: [x]) by {
        assert forall x :: [x] == [k] ==> x == k by {
          forall x | [x] == [k] ensures x == k { assert [x][0] == [k][0]; }
        }
      }
    }
  }

  lemma GrownAt(part: map<string, Node>, x: string, child: Node, prefix: Path, p: Path)
    requires p != []
    ensures p[0] == x ==> At(Dir(part[x := child]), p) == At(child, p[1..]) && prefix + p == (prefix + [x]) + p[1..]
    ensures p[0] != x ==> At(Dir(part[x := child]), p) == At(Dir(part), p)
  {
    assert p == [p[0]] + p[1..];
  }

  /** Adding one child adds its own demand and those of everything below it. */
  lemma AllOkAdd(n: Naming, limits: InventoryLimits, part: map<string, Node>, x: string, child: Node, prefix: Path)
    requires x !in part
    ensures AllOk(n, limits, Dir(part[x := child]), prefix) <==>
            AllOk(n, limits, Dir(part), prefix) && EntryOk(n, limits, prefix + [x], Shape(child)) && AllOk(n, limits, child, prefix + [x])
  {
    var grown := Dir(part[x := child]);
    if AllOk(n, limits, grown, prefix) {
      GrownAt(part, x, child, prefix, [x]);
      assert At(child, []) == Shape(child) && [x][1..] == [];
      forall q | q != [] && At(child, q) != Absent ensures EntryOk(n, limits, prefix + [x] + q, At(child, q)) {
        GrownAt(part, x, child, prefix, [x] + q);
        assert ([x] + q)[1..] == q;
      }
      forall p | p != [] && At(Dir(part), p) != Absent ensures EntryOk(n, limits, prefix + p, At(Dir(part), p)) {
        GrownAt(part, x, child, prefix, p);
      }
    }
    if AllOk(n, limits, Dir(part), prefix) && EntryOk(n, limits, prefix + [x], Shape(child)) && AllOk(n, limits, child, prefix + [x]) {
      forall p | p != [] && At(grown, p) != Absent ensures EntryOk(n, limits, prefix + p, At(grown, p)) {
        GrownAt(part, x, child, prefix, p);
        if p[0] == x && p[1..] == [] {
          assert p == [x] && At(child, []) == Shape(child);
        }
      }
    }
  }

  lemma RecordsAdd(objects: map<nat, FileObject>, markdown: string -> bool, part: map<string, Node>, x: string, child: Node, prefix: Path, e: InventoryEntry)
    requires x !in part
    ensures Records(objects, markdown, Dir(part[x := child]), prefix, e) <==>
            || Records(objects, markdown, Dir(part), prefix, e)
            || (child.File? && e == Recorded(objects, markdown, prefix + [x], child.obj))
            || Records(objects, markdown, child, prefix + [x], e)
    ensures Records(objects, markdown, Dir(part), prefix, e) ==> |e.path| > |prefix| && e.path[|prefix|] != x
    ensures Records(objects, markdown, child, prefix + [x], e) ==> |e.path| > |prefix| + 1 && e.path[|prefix|] == x
  {
    assert At(child, []) == Shape(child);
    if |prefix| < |e.path| && prefix <= e.path {
      var p := e.path[|prefix|..];
      assert e.path == prefix + p;
      GrownAt(part, x, child, prefix, p);
      if p[0] == x {
        assert prefix + [x] <= e.path && e.path[|prefix| + 1..] == p[1..];
        if |p| == 1 {
          assert p == [x] && p[1..] == [] && e.path == prefix + [x];
        }
      }
    }
    if prefix + [x] <= e.path && |prefix + [x]| < |e.path| {
      assert e.path[..|prefix| + 1] == prefix + [x];
      assert e.path[..|prefix|] == prefix && e.path[|prefix|] == x;
    }
    var here := prefix + [x];
    assert here[|prefix|..] == [x];
  }

  /** Listing a directory is listing its children one after the other. */
  lemma ListsAdd(objects: map<nat, FileObject>, markdown: string -> bool, part: map<string, Node>, x: string, child: Node, prefix: Path,
                 output: seq<InventoryEntry>, more: seq<InventoryEntry>)
    requires x !in part && Lists(objects, markdown, Dir(part), prefix, output)
    requires Adds(objects, markdown, child, prefix + [x], more)
    ensures Lists(objects, markdown, Dir(part[x := child]), prefix, output + more)
  {
    forall e ensures e in output + more <==> Records(objects, markdown, Dir(part[x := child]), prefix, e) {
      RecordsAdd(objects, markdown, part, x, child, prefix, e);
      assert child.File? ==> !Records(objects, markdown, child, prefix + [x], e) by {
        if child.File? && |prefix + [x]| < |e.path| {
          NothingBelow(child, [], e.path[|prefix + [x]|..]);
        }
      }
    }
    var all := output + more;
    forall i, j | 0 <= i < j < |all| ensures all[i].path != all[j].path {
      if i < |output| <= j {
        assert all[i] in output && all[j] in more;
        RecordsAdd(objects, markdown, part, x, child, prefix, all[i]);
        RecordsAdd(objects, markdown, part, x, child, prefix, all[j]);
        assert child.File? ==> all[j].path[|prefix|] == x;
      }
    }
  }

  // ----- The walk

  /** For names a filesystem can hold, parsing the joined path accepts exactly canonical paths. */
  lemma ParseLegal(n: Naming, p: Path)
    requires n.Lawful() && p != [] && LegalPath(p)
    ensures (&& !BadStart(Join(p))
             && SegmentsOk(n, Split(Join(p)))
             && Kept(Split(Join(p))) != [] && Fits(Join(Kept(Split(Join(p))))))
            <==> Canonical(n, p)
  {
    SplitJoin(p);
    KeptAll(p);
    if Canonical(n, p) {
      CanonicalRoundTrip(n, p);
    }
  }

  /** `inventory_dir`: lists one directory, refuses an overlong listing, then visits the names
      in order. `visited` counts every entry looked at so far. */
  method InventoryDir(n: Naming, objects: map<nat, FileObject>, markdown: string -> bool, node: Node, prefix: Path,
                      limits: InventoryLimits, visited: nat) returns (r: Result<(nat, seq<InventoryEntry>), Error>)
    requires n.Lawful() && node.Dir? && LegalPath(prefix) && LegalNames(node) && visited <= limits.maxEntries
    ensures r.Err? ==> !Acceptable(n, limits, Shown(n, node, prefix), prefix, visited) && r.error != PortablePathCollision
    ensures r.Ok? ==> Walked(n, objects, markdown, limits, Shown(n, node, prefix), prefix, visited, r.value)
    decreases node, 2
  {
    var entries := Shown(n, node, prefix).entries;
    var remaining := if limits.maxEntries > visited then limits.maxEntries - visited else 0;
    NamesInside(entries);
    if |entries.Keys| > remaining {
      return Err(ResourceLimitExceeded);
    }
    var names := Sort(entries.Keys);
    forall x | x in entries ensures LegalNames(entries[x]) && LegalPath(prefix + [x]) {
      ChildLegal(node, x, entries[x], prefix);
    }
    assert Dir(entries) == Shown(n, node, prefix);
    r := VisitAll(n, objects, markdown, node, entries, names, prefix, limits, visited);
  }

  /** The walk may accept everything below a directory. */
  ghost predicate Acceptable(n: Naming, limits: InventoryLimits, node: Node, prefix: Path, visited: nat) {
    AllOk(n, limits, node, prefix) && visited + |Inside(node)| <= limits.maxEntries
  }

  /** The walk has accepted and listed everything below a directory. */
  ghost predicate Walked(n: Naming, objects: map<nat, FileObject>, markdown: string -> bool, limits: InventoryLimits, node: Node, prefix: Path,
                         visited: nat, done: (nat, seq<InventoryEntry>)) {
    && Acceptable(n, limits, node, prefix, visited)
    && done.0 == visited + |Inside(node)| && Lists(objects, markdown, node, prefix, done.1)
  }

  /** What the walk knows about the children of a directory: they are part of it, and their
      names are ones a filesystem can hold. */
  ghost predicate Children(node: Node, entries: map<string, Node>, names: seq<string>, prefix: Path) {
    && Increasing(names) && (forall x :: x in names <==> x in entries)
    && forall x :: x in entries ==> entries[x] < node && LegalNames(entries[x]) && LegalPath(prefix + [x])
  }

  /** The loop over the sorted names of one directory. */
  method VisitAll(n: Naming, objects: map<nat, FileObject>, markdown: string -> bool, ghost node: Node, entries: map<string, Node>,
                  names: seq<string>, prefix: Path, limits: InventoryLimits, visited: nat) returns (r: Result<(nat, seq<InventoryEntry>), Error>)
    requires n.Lawful() && visited <= limits.maxEntries && Children(node, entries, names, prefix)
    ensures r.Err? ==> !Acceptable(n, limits, Dir(entries), prefix, visited) && r.error != PortablePathCollision
    ensures r.Ok? ==> Walked(n, objects, markdown, limits, Dir(entries), prefix, visited, r.value)
    decreases node, 1
  {
    r := Ok((visited, []));
    NothingListed(n, limits, objects, markdown, prefix);
    assert First(entries, names, 0) == map[];
    var i := 0;
    while i < |names|
      invariant 0 <= i <= |names| && r.Ok?
      invariant Walked(n, objects, markdown, limits, Dir(First(entries, names, i)), prefix, visited, r.value)
    {
      r := VisitNext(n, objects, markdown, node, entries, names, i, prefix, limits, visited, r.value);
      if r.Err? { return; }
      i := i + 1;
    }
    AllVisited(entries, names);
  }

  /** One more name: what is listed and counted grows by what the entry contributes. */
  method VisitNext(n: Naming, objects: map<nat, FileObject>, markdown: string -> bool, ghost node: Node, entries: map<string, Node>,
                   names: seq<string>, i: nat, prefix: Path, limits: InventoryLimits, ghost visited: nat, done: (nat, seq<InventoryEntry>))
    returns (r: Result<(nat, seq<InventoryEntry>), Error>)
    requires n.Lawful() && Children(node, entries, names, prefix) && i < |names|
    requires Walked(n, objects, markdown, limits, Dir(First(entries, names, i)), prefix, visited, done)
    ensures r.Err? ==> !Acceptable(n, limits, Dir(entries), prefix, visited) && r.error != PortablePathCollision
    ensures r.Ok? ==> Walked(n, objects, markdown, limits, Dir(First(entries, names, i + 1)), prefix, visited, r.value)
    decreases node, 0
  {
    assert names[i] in names;
    var visit := VisitEntry(n, objects, markdown, names[i], entries[names[i]], prefix, limits, done.0);
    NextChild(n, objects, markdown, limits, entries, names, i, prefix, visited, done, visit);
    return if visit.Ok? then Ok((visit.value.0, done.1 + visit.value.1)) else visit;
  }

  lemma AllVisited(entries: map<string, Node>, names: seq<string>)
    requires forall x :: x in names <==> x in entries
    ensures First(entries, names, |names|) == entries
  {
    assert names[..|names|] == names;
  }

  /** The children visited after `i` names. */
  ghost function First(entries: map<string, Node>, names: seq<string>, i: nat): map<string, Node>
    requires i <= |names|
  {
    map x | x in entries && x in names[..i] :: entries[x]
  }

  lemma FirstNext(entries: map<string, Node>, names: seq<string>, i: nat)
    requires Increasing(names) && i < |names| && names[i] in entries
    ensures names[i] !in First(entries, names, i)
    ensures First(entries, names, i + 1) == First(entries, names, i)[names[i] := entries[names[i]]]
    ensures forall y :: y in First(entries, names, i) ==> y in entries && First(entries, names, i)[y] == entries[y]
  {
    FreshName(names, i);
  }

  /** What visiting one more name means for the directory as a whole. */
  lemma NextChild(n: Naming, objects: map<nat, FileObject>, markdown: string -> bool, limits: InventoryLimits, entries: map<string, Node>,
                  names: seq<string>, i: nat, prefix: Path, visited: nat, done: (nat, seq<InventoryEntry>),
                  visit: Result<(nat, seq<InventoryEntry>), Error>)
    requires Increasing(names) && i < |names| && names[i] in entries
    requires Walked(n, objects, markdown, limits, Dir(First(entries, names, i)), prefix, visited, done)
    requires Visited(n, objects, markdown, limits, entries[names[i]], prefix + [names[i]], done.0, visit)
    ensures visit.Err? ==> !Acceptable(n, limits, Dir(entries), prefix, visited)
    ensures visit.Ok? ==>
      Walked(n, objects, markdown, limits, Dir(First(entries, names, i + 1)), prefix, visited, (visit.value.0, done.1 + visit.value.1))
  {
    var part, child := First(entries, names, i), entries[names[i]];
    FirstNext(entries, names, i);
    GrowCount(part, entries, names[i]);
    GrowOk(n, limits, part, entries, names[i], prefix);
    if visit.Ok? {
      ListsAdd(objects, markdown, part, names[i], child, prefix, done.1, visit.value.1);
    }
  }

  /** One entry was accepted exactly when it and everything below it may be, and then its
      files are listed and all is counted. */
  ghost predicate Visited(n: Naming, objects: map<nat, FileObject>, markdown: string -> bool, limits: InventoryLimits, child: Node, path: Path,
                          visited: nat, r: Result<(nat, seq<InventoryEntry>), Error>)
    requires path != []
  {
    && (r.Ok? <==> EntryOk(n, limits, path, Shape(child)) && Acceptable(n, limits, child, path, visited + 1))
    && (r.Err? ==> r.error != PortablePathCollision)
    && (r.Ok? ==> r.value.0 == visited + 1 + |Inside(child)| && Adds(objects, markdown, child, path, r.value.1))
  }

  /** `more` is what the entry at `path` contributes: itself, or the files below it. */
  ghost predicate Adds(objects: map<nat, FileObject>, markdown: string -> bool, child: Node, path: Path, more: seq<InventoryEntry>)
    requires path != []
  {
    if child.File? then more == [Recorded(objects, markdown, path, child.obj)] else Lists(objects, markdown, child, path, more)
  }

  /** One entry of a listing: count it, parse its path, refuse links, descend or record. */
  method VisitEntry(n: Naming, objects: map<nat, FileObject>, markdown: string -> bool, name: string, child: Node, prefix: Path,
                    limits: InventoryLimits, visited: nat) returns (r: Result<(nat, seq<InventoryEntry>), Error>)
    requires n.Lawful() && LegalPath(prefix + [name]) && LegalNames(child)
    ensures Visited(n, objects, markdown, limits, child, prefix + [name], visited, r)
    decreases child, 3
  {
    if visited + 1 > limits.maxEntries {
      return Err(ResourceLimitExceeded);
    }
    var path := prefix + [name];
    ParseLegal(n, path);
    var parsed := FromPortable(n, Join(path));
    if parsed.None? {
      return Err(InvalidRelativePath);
    }
    match child {
      case Symlink => return Err(SymlinkRejected);
      case Special =>
        LeafListed(n, limits, objects, markdown, child, path);
        return Ok((visited + 1, []));
      case File(o) =>
        LeafListed(n, limits, objects, markdown, child, path);
        return Ok((visited + 1, [Recorded(objects, markdown, path, o)]));
      case Dir(_) =>
        if |path| > limits.maxDepth {
          return Err(ResourceLimitExceeded);
        }
        r := InventoryDir(n, objects, markdown, child, path, limits, visited + 1);
    }
  }

  lemma NothingListed(n: Naming, limits: InventoryLimits, objects: map<nat, FileObject>, markdown: string -> bool, prefix: Path)
    ensures AllOk(n, limits, Dir(map[]), prefix) && Lists(objects, markdown, Dir(map[]), prefix, []) && Inside(Dir(map[])) == {}
  {
    assert forall p :: p != [] ==> At(Dir(map[]), p) == Absent;
  }

  lemma LeafListed(n: Naming, limits: InventoryLimits, objects: map<nat, FileObject>, markdown: string -> bool, leaf: Node, path: Path)
    requires !leaf.Dir?
    ensures AllOk(n, limits, leaf, path) && Lists(objects, markdown, leaf, path, []) && Inside(leaf) == {}
  {
    assert forall p :: p != [] ==> At(leaf, p) == Absent;
  }

  lemma FreshName(names: seq<string>, i: nat)
    requires Increasing(names) && i < |names|
    ensures names[i] in names && names[i] !in names[..i]
    ensures forall x :: x in names[..i + 1] <==> x in names[..i] || x == names[i]
  {
    assert names[..i + 1] == names[..i] + [names[i]];
    if names[i] in names[..i] {
      var j :| 0 <= j < i && names[j] == names[i];
      BelowIrreflexive(names[i]);
    }
  }

  lemma PartOk(n: Naming, limits: InventoryLimits, part: map<string, Node>, entries: map<string, Node>, prefix: Path)
    requires forall x :: x in part ==> x in entries && part[x] == entries[x]
    ensures AllOk(n, limits, Dir(entries), prefix) ==> AllOk(n, limits, Dir(part), prefix)
  {
    assert forall p :: p != [] && At(Dir(part), p) != Absent ==> At(Dir(entries), p) == At(Dir(part), p);
  }

  /** What one more child means for the counts. */
  lemma GrowCount(part: map<string, Node>, entries: map<string, Node>, x: string)
    requires forall y :: y in part ==> y in entries && part[y] == entries[y]
    requires x in entries && x !in part
    ensures |Inside(Dir(part))| + 1 + |Inside(entries[x])| <= |Inside(Dir(entries))|
    ensures |Inside(Dir(part[x := entries[x]]))| == |Inside(Dir(part))| + 1 + |Inside(entries[x])|
  {
    PartSize(part, entries, x);
    InsideAdd(part, x, entries[x]);
  }

  /** What one more child means for the demands. */
  lemma GrowOk(n: Naming, limits: InventoryLimits, part: map<string, Node>, entries: map<string, Node>, x: string, prefix: Path)
    requires forall y :: y in part ==> y in entries && part[y] == entries[y]
    requires x in entries && x !in part && AllOk(n, limits, Dir(part), prefix)
    ensures AllOk(n, limits, Dir(part[x := entries[x]]), prefix) <==>
            EntryOk(n, limits, prefix + [x], Shape(entries[x])) && AllOk(n, limits, entries[x], prefix + [x])
    ensures AllOk(n, limits, Dir(entries), prefix) ==> AllOk(n, limits, Dir(part[x := entries[x]]), prefix)
  {
    AllOkAdd(n, limits, part, x, entries[x], prefix);
    PartOk(n, limits, part[x := entries[x]], entries, prefix);
  }

  lemma ChildLegal(node: Node, name: string, child: Node, prefix: Path)
    requires node.Dir? && LegalNames(node) && name in node.entries && child == node.entries[name] && LegalPath(prefix)
    ensures LegalNames(child) && LegalPath(prefix + [name])
  {
    SubOne(node, name);
    assert name in [name] && LegalPath([name]);
    forall q | At(child, q) != Absent ensures LegalPath(q) {
      assert ([name] + q)[1..] == q;
      assert At(node, [name] + q) == At(child, q);
      assert forall c :: c in q ==> c in [name] + q;
    }
  }

  // ----- The whole inventory

  predicate Earlier(e: InventoryEntry, f: InventoryEntry) {
    Below(Join(e.path), Join(f.path))
  }

  ghost predicate Ascending(es: seq<InventoryEntry>) {
    forall i, j :: 0 <= i < j < |es| ==> Earlier(es[i], es[j])
  }

  method SortEntries(es: seq<InventoryEntry>) returns (r: seq<InventoryEntry>)
    requires forall i, j :: 0 <= i < j < |es| ==> Join(es[i].path) != Join(es[j].path)
    ensures Ascending(r) && |r| == |es| && forall e :: e in r <==> e in es
  {
    r := [];
    var i := 0;
    while i < |es|
      invariant 0 <= i <= |es| == |r| + (|es| - i)
      invariant Ascending(r) && forall e :: e in r <==> e in es[..i]
    {
      assert es[..i + 1] == es[..i] + [es[i]];
      var k := 0;
      while k < |r| && Earlier(r[k], es[i])
        invariant 0 <= k <= |r|
        invariant forall j :: 0 <= j < k ==> Earlier(r[j], es[i])
      {
        k := k + 1;
      }
      if k < |r| {
        assert r[k] in r;
        BelowTotal(Join(r[k].path), Join(es[i].path));
      }
      InsertAscending(r, k, es[i]);
      r := r[..k] + [es[i]] + r[k..];
      i := i + 1;
    }
    assert es[..i] == es;
  }

  lemma InsertAscending(r: seq<InventoryEntry>, k: nat, e: InventoryEntry)
    requires Ascending(r) && k <= |r| && (k < |r| ==> Earlier(e, r[k]))
    requires forall j :: 0 <= j < k ==> Earlier(r[j], e)
    ensures Ascending(r[..k] + [e] + r[k..])
    ensures forall x :: x in r[..k] + [e] + r[k..] <==> x in r || x == e
  {
    forall j | k < j < |r| ensures Earlier(e, r[j]) {
      BelowTransitive(Join(e.path), Join(r[k].path), Join(r[j].path));
    }
    var s := r[..k] + [e] + r[k..];
    assert forall i :: 0 <= i < |s| ==> s[i] == if i < k then r[i] else if i == k then e else r[i - 1];
    assert r == r[..k] + r[k..];
  }

  /** Different files have different full-path keys. */
  ghost predicate KeysDistinct(n: Naming, node: Node) {
    forall p, q :: At(node, p).IsFile? && At(node, q).IsFile? && CollisionKey(n, p) == CollisionKey(n, q) ==> p == q
  }

  ghost predicate KeysApart(n: Naming, es: seq<InventoryEntry>) {
    forall i, j :: 0 <= i < j < |es| ==> CollisionKey(n, es[i].path) != CollisionKey(n, es[j].path)
  }

  /** The loop that inserts every key and refuses the second of two equal ones. */
  method RejectEqualKeys(n: Naming, es: seq<InventoryEntry>) returns (r: Result<(), Error>)
    ensures r == if KeysApart(n, es) then Ok(()) else Err(PortablePathCollision)
  {
    var seen: set<string> := {};
    var i := 0;
    while i < |es|
      invariant 0 <= i <= |es| && KeysApart(n, es[..i])
      invariant forall k :: k in seen <==> exists j :: 0 <= j < i && k == CollisionKey(n, es[j].path)
    {
      var key := CollisionKey(n, es[i].path);
      if key in seen {
        return Err(PortablePathCollision);
      }
      seen := seen + {key};
      i := i + 1;
    }
    assert es[..i] == es;
    return Ok(());
  }

  lemma ListedPaths(n: Naming, objects: map<nat, FileObject>, markdown: string -> bool, limits: InventoryLimits, node: Node, es: seq<InventoryEntry>)
    requires AllOk(n, limits, node, []) && Lists(objects, markdown, node, [], es)
    ensures forall e :: e in es ==> Canonical(n, e.path) && At(node, e.path).IsFile?
    ensures forall i, j :: 0 <= i < j < |es| ==> Join(es[i].path) != Join(es[j].path)
  {
    forall e | e in es ensures Canonical(n, e.path) && At(node, e.path).IsFile? {
      assert Records(objects, markdown, node, [], e);
      assert e.path[0..] == e.path && [] + e.path == e.path;
    }
    forall i, j | 0 <= i < j < |es| ensures Join(es[i].path) != Join(es[j].path) {
      assert es[i] in es && es[j] in es;
      if Join(es[i].path) == Join(es[j].path) {
        JoinInjective(es[i].path, es[j].path);
      }
    }
  }

  /** `Lists` does not see the order. */
  lemma ListsReordered(objects: map<nat, FileObject>, markdown: string -> bool, node: Node, es: seq<InventoryEntry>, sorted: seq<InventoryEntry>)
    requires Lists(objects, markdown, node, [], es) && Ascending(sorted) && forall e :: e in sorted <==> e in es
    ensures Lists(objects, markdown, node, [], sorted)
  {
    forall i, j | 0 <= i < j < |sorted| ensures sorted[i].path != sorted[j].path {
      BelowIrreflexive(Join(sorted[i].path));
    }
  }

  lemma KeysApartOfListing(n: Naming, objects: map<nat, FileObject>, markdown: string -> bool, node: Node, es: seq<InventoryEntry>)
    requires node.Dir? && Lists(objects, markdown, node, [], es)
    ensures KeysApart(n, es) <==> KeysDistinct(n, node)
  {
    assert forall e: InventoryEntry :: e.path[0..] == e.path;
    if KeysApart(n, es) {
      forall p, q | At(node, p).IsFile? && At(node, q).IsFile? && CollisionKey(n, p) == CollisionKey(n, q) ensures p == q {
        var e, f := Recorded(objects, markdown, p, At(node, p).obj), Recorded(objects, markdown, q, At(node, q).obj);
        assert Records(objects, markdown, node, [], e) && Records(objects, markdown, node, [], f);
        var i :| 0 <= i < |es| && es[i] == e;
        var j :| 0 <= j < |es| && es[j] == f;
        assert i == j;
      }
    }
    if KeysDistinct(n, node) {
      forall i, j | 0 <= i < j < |es| ensures CollisionKey(n, es[i].path) != CollisionKey(n, es[j].path) {
        assert es[i] in es && es[j] in es;
        assert Records(objects, markdown, node, [], es[i]) && Records(objects, markdown, node, [], es[j]);
      }
    }
  }

  /** `Vault::inventory`: succeeds exactly when every entry meets the limits and no two files
      share a key, and then lists exactly the regular content files in increasing path order. */
  method Inventory(n: Naming, objects: map<nat, FileObject>, markdown: string -> bool, root: Node, limits: InventoryLimits)
    returns (r: Result<seq<InventoryEntry>, Error>)
    requires n.Lawful() && root.Dir? && LegalNames(root)
    ensures r.Ok? <==> Acceptable(n, limits, Shown(n, root, []), [], 0) && KeysDistinct(n, Shown(n, root, []))
    ensures r.Ok? ==> Ascending(r.value) && Lists(objects, markdown, Shown(n, root, []), [], r.value)
    // Exactly the content files of the vault are listed, each with its length and its kind.
    ensures r.Ok? ==> (forall e :: e in r.value ==> TrueEntry(objects, markdown, root, e)) &&
                      forall p :: ListedAt(r.value, p) <==> Classify(n, p) == Content && At(root, p).IsFile?
    ensures r.Err? && KeysDistinct(n, Shown(n, root, [])) ==> r.error != PortablePathCollision
    ensures Acceptable(n, limits, Shown(n, root, []), [], 0) && !KeysDistinct(n, Shown(n, root, [])) ==> r == Err(PortablePathCollision)
  {
    ghost var shown := Shown(n, root, []);
    var walked := InventoryDir(n, objects, markdown, root, [], limits, 0);
    if walked.Err? {
      return Err(walked.error);
    }
    ListedPaths(n, objects, markdown, limits, shown, walked.value.1);
    var output := SortEntries(walked.value.1);
    ListsReordered(objects, markdown, shown, walked.value.1, output);
    KeysApartOfListing(n, objects, markdown, shown, output);
    var apart := RejectEqualKeys(n, output);
    if apart.Err? {
      return Err(apart.error);
    }
    ListedIsContent(n, objects, markdown, root, output);
    return Ok(output);
  }

  /** The entry is about a regular file, with its length, and with the kind of its name. */
  ghost predicate TrueEntry(objects: map<nat, FileObject>, markdown: string -> bool, root: Node, e: InventoryEntry) {
    && e.path != [] && At(root, e.path).IsFile? && e.markdown == markdown(e.path[|e.path| - 1])
    && (At(root, e.path).obj in objects ==> e.size == |objects[At(root, e.path).obj].bytes|)
  }

  ghost predicate ListedAt(es: seq<InventoryEntry>, p: Path) {
    exists e :: e in es && e.path == p
  }

  /** A listing of what is shown is one of the content files of the tree. */
  lemma ListedIsContent(n: Naming, objects: map<nat, FileObject>, markdown: string -> bool, root: Node, es: seq<InventoryEntry>)
    requires root.Dir? && Lists(objects, markdown, Shown(n, root, []), [], es)
    ensures forall e :: e in es ==> TrueEntry(objects, markdown, root, e)
    ensures forall p :: ListedAt(es, p) <==> Classify(n, p) == Content && At(root, p).IsFile?
  {
    var shown := Shown(n, root, []);
    forall e | e in es ensures TrueEntry(objects, markdown, root, e) && Classify(n, e.path) == Content {
      assert Records(objects, markdown, shown, [], e);
      assert e.path[0..] == e.path;
      ShownAt(n, root, e.path);
    }
    forall p ensures Classify(n, p) == Content && At(root, p).IsFile? ==> ListedAt(es, p) {
      ShownAt(n, root, p);
      if At(shown, p).IsFile? {
        var e := Recorded(objects, markdown, p, At(shown, p).obj);
        assert p[0..] == p;
        assert Records(objects, markdown, shown, [], e);
      }
    }
  }

  // ----- Distinct siblings make distinct paths

  /** When no name in the tree has a key with a separator, distinct sibling keys make the keys
      of whole paths distinct, for files and directories alike. */
  lemma SiblingsGivePaths(n: Naming, root: Node, p: Path, q: Path)
    requires PlainKeys(n, root) && SiblingsDistinct(n, root)
    requires p != [] && q != [] && At(root, p) != Absent && At(root, q) != Absent
    ensures CollisionKey(n, p) == CollisionKey(n, q) ==> p == q
  {
    if CollisionKey(n, p) == CollisionKey(n, q) {
      KeysPlain(n, root, p);
      KeysPlain(n, root, q);
      JoinInjective(Keys(n, p), Keys(n, q));
      assert |p| == |Keys(n, p)| == |q|;
      SamePrefix(n, root, p, q, |p|);
      assert p[..|p|] == p && q[..|p|] == q;
    }
  }

  lemma KeysPlain(n: Naming, root: Node, p: Path)
    requires PlainKeys(n, root) && At(root, p) != Absent
    ensures NoSlash(Keys(n, p))
  {
    forall c | c in Keys(n, p) ensures '/' !in c {
      var i :| 0 <= i < |p| && Keys(n, p)[i] == c;
      assert p[i] in p;
    }
  }

  lemma {:induction false} SamePrefix(n: Naming, root: Node, p: Path, q: Path, k: nat)
    requires SiblingsDistinct(n, root) && At(root, p) != Absent && At(root, q) != Absent
    requires Keys(n, p) == Keys(n, q) && k <= |p| == |q|
    ensures p[..k] == q[..k]
  {
    if k > 0 {
      SamePrefix(n, root, p, q, k - 1);
      var d := p[..k - 1];
      assert p[..k] == d + [p[k - 1]] && q[..k] == d + [q[k - 1]];
      Exists(root, p, k);
      Exists(root, q, k);
      assert Keys(n, p)[k - 1] == Keys(n, q)[k - 1];
    }
  }

  lemma Exists(root: Node, p: Path, k: nat)
    requires At(root, p) != Absent && k <= |p|
    ensures At(root, p[..k]) != Absent
  {
    if k < |p| {
      PrefixIsDir(root, p, k);
    } else {
      assert p[..k] == p;
    }
  }

  lemma ShownAt(n: Naming, root: Node, p: Path)
    requires root.Dir?
    ensures At(Shown(n, root, []), p) == if Classify(n, p) == Content then At(root, p) else Absent
  {
  }

  /** So on a vault whose siblings are distinct the inventory never reports a collision. */
  lemma SiblingsGiveKeysDistinct(n: Naming, root: Node)
    requires PlainKeys(n, root) && SiblingsDistinct(n, root) && root.Dir?
    ensures KeysDistinct(n, Shown(n, root, []))
  {
    var shown := Shown(n, root, []);
    forall p, q | At(shown, p).IsFile? && At(shown, q).IsFile? && CollisionKey(n, p) == CollisionKey(n, q) ensures p == q {
      ShownAt(n, root, p);
      ShownAt(n, root, q);
      SiblingsGivePaths(n, root, p, q);
    }
  }

  // ----- Exactly when it does

  /** All names in the tree are taken from `names`. */
  ghost predicate Over(root: Node, names: iset<string>) {
    forall p, c :: At(root, p) != Absent && c in p ==> c in names
  }

  /** Names a filesystem can hold, such that the pieces of their keys are names too, and are
      their own keys. The names that NFKC with case folding leaves alone are like this. */
  ghost predicate ClosedUnderKeys(n: Naming, names: iset<string>) {
    && (forall x :: x in names ==> LegalPath([x]))
    && (forall x, c :: x in names && c in Split(n.key(x)) ==> c in names && n.key(c) == c)
  }

  /** Over such a set of names, every tree with distinct siblings has distinct file keys if and
      only if no key of a name contains a separator. */
  lemma SeparatorFreeExactly(n: Naming, names: iset<string>)
    requires ClosedUnderKeys(n, names)
    ensures (forall x :: x in names ==> '/' !in n.key(x)) <==>
            (forall root: Node :: root.Dir? && Over(root, names) && SiblingsDistinct(n, root) ==> KeysDistinct(n, Shown(n, root, [])))
  {
    if forall x :: x in names ==> '/' !in n.key(x) {
      forall root: Node | root.Dir? && Over(root, names) && SiblingsDistinct(n, root) ensures KeysDistinct(n, Shown(n, root, [])) {
        SiblingsGiveKeysDistinct(n, root);
      }
    } else {
      var x :| x in names && '/' in n.key(x);
      var root := Colliding(n, x);
      CollidingCollides(n, names, x);
    }
  }

  function Chain(parts: Path, o: nat): Node {
    if parts == [] then File(o) else Dir(map[parts[0] := Chain(parts[1..], o)])
  }

  /** One directory named `x` that holds a file `x` and, spelled out as directories, the pieces
      of the key of `x`. */
  function Colliding(n: Naming, x: string): Node {
    var parts := Split(n.key(x));
    Dir(map[x := Dir(map[x := File(0), parts[0] := Chain(parts[1..], 1)])])
  }

  lemma {:induction false} ChainAt(parts: Path, o: nat, q: Path)
    ensures At(Chain(parts, o), q) != Absent <==> q <= parts
    ensures At(Chain(parts, o), parts) == IsFile(o)
    decreases |parts|
  {
    if parts != [] {
      ChainAt(parts[1..], o, if q == [] then [] else q[1..]);
      assert parts == [parts[0]] + parts[1..];
      if q != [] {
        assert q == [q[0]] + q[1..];
        assert q <= parts <==> q[0] == parts[0] && q[1..] <= parts[1..];
      }
    }
  }

  lemma DirAt(entries: map<string, Node>, x: string, q: Path)
    ensures At(Dir(entries), [x] + q) == if x in entries then At(entries[x], q) else Absent
  {
    assert ([x] + q)[0] == x && ([x] + q)[1..] == q;
  }

  /** A directory of distinct names over subtrees with distinct siblings. */
  lemma DirDistinct(n: Naming, entries: map<string, Node>)
    requires forall x, y :: x in entries && y in entries && n.key(x) == n.key(y) ==> x == y
    requires forall x :: x in entries ==> SiblingsDistinct(n, entries[x])
    ensures SiblingsDistinct(n, Dir(entries))
  {
    var root := Dir(entries);
    forall d, x, y | At(root, d + [x]) != Absent && At(root, d + [y]) != Absent && n.key(x) == n.key(y) ensures x == y {
      if d == [] {
        assert d + [x] == [x] && d + [y] == [y];
        SubOne(root, x);
        SubOne(root, y);
      } else {
        assert d + [x] == [d[0]] + (d[1..] + [x]) && d + [y] == [d[0]] + (d[1..] + [y]);
        DirAt(entries, d[0], d[1..] + [x]);
        DirAt(entries, d[0], d[1..] + [y]);
      }
    }
  }

  lemma DirOver(entries: map<string, Node>, names: iset<string>)
    requires forall x :: x in entries ==> x in names && Over(entries[x], names)
    ensures Over(Dir(entries), names)
  {
    forall p, c | At(Dir(entries), p) != Absent && c in p ensures c in names {
      assert p == [p[0]] + p[1..];
      DirAt(entries, p[0], p[1..]);
      assert At(entries[p[0]], p[1..]) != Absent;
    }
  }

  lemma ChainTidy(n: Naming, parts: Path, o: nat, names: iset<string>)
    requires forall c :: c in parts ==> c in names
    ensures SiblingsDistinct(n, Chain(parts, o)) && Over(Chain(parts, o), names)
  {
    var chain := Chain(parts, o);
    forall d, x, y | At(chain, d + [x]) != Absent && At(chain, d + [y]) != Absent && n.key(x) == n.key(y) ensures x == y {
      ChainAt(parts, o, d + [x]);
      ChainAt(parts, o, d + [y]);
      assert (d + [x])[|d|] == x && (d + [y])[|d|] == y && parts[|d|] == x && parts[|d|] == y;
    }
    forall p, c | At(chain, p) != Absent && c in p ensures c in names {
      ChainAt(parts, o, p);
      assert c in parts;
    }
  }

  lemma LeafTidy(n: Naming, o: nat, names: iset<string>)
    ensures SiblingsDistinct(n, File(o)) && Over(File(o), names)
  {
    forall p | At(File(o), p) != Absent ensures p == [] {}
    assert forall d: Path, x: string :: d + [x] != [];
  }

  lemma InnerTidy(n: Naming, names: iset<string>, x: string, first: string, below: Node)
    requires x in names && first in names && n.key(x) != n.key(first)
    requires SiblingsDistinct(n, below) && Over(below, names)
    ensures SiblingsDistinct(n, Dir(map[x := File(0), first := below])) && Over(Dir(map[x := File(0), first := below]), names)
  {
    LeafTidy(n, 0, names);
    var inner := map[x := File(0), first := below];
    DirDistinct(n, inner);
    DirOver(inner, names);
  }

  lemma CollidingTidy(n: Naming, names: iset<string>, x: string)
    requires ClosedUnderKeys(n, names) && x in names && '/' in n.key(x)
    ensures Over(Colliding(n, x), names) && SiblingsDistinct(n, Colliding(n, x))
  {
    var parts := Split(n.key(x));
    PiecesOfKey(n, names, x);
    assert parts[0] in parts && Keys(n, parts)[0] == n.key(parts[0]);
    assert forall c :: c in parts[1..] ==> c in parts;
    ChainTidy(n, parts[1..], 1, names);
    InnerTidy(n, names, x, parts[0], Chain(parts[1..], 1));
    var inner := map[x := File(0), parts[0] := Chain(parts[1..], 1)];
    DirDistinct(n, map[x := Dir(inner)]);
    DirOver(map[x := Dir(inner)], names);
  }

  lemma PiecesOfKey(n: Naming, names: iset<string>, x: string)
    requires ClosedUnderKeys(n, names) && x in names && '/' in n.key(x)
    ensures var parts := Split(n.key(x));
            |parts| > 1 && Join(parts) == n.key(x) && '/' !in parts[0] && parts[0] != x && Keys(n, parts) == parts
  {
    var parts := Split(n.key(x));
    SplitNoSlash(n.key(x));
    JoinSplit(n.key(x));
    assert parts[0] in parts;
    forall i | 0 <= i < |parts| ensures n.key(parts[i]) == parts[i] {
      assert parts[i] in parts;
    }
  }

  lemma JoinCons(c: string, rest: Path)
    requires rest != []
    ensures Join([c] + rest) == c + "/" + Join(rest)
  {
    assert ([c] + rest)[1..] == rest;
  }

  lemma KeysCons(n: Naming, x: string, p: Path)
    ensures Keys(n, [x] + p) == [n.key(x)] + Keys(n, p)
  {
  }

  lemma CollidingKeys(n: Naming, x: string, parts: Path)
    requires |parts| > 1 && Join(parts) == n.key(x) && Keys(n, parts) == parts
    ensures CollisionKey(n, [x] + [x]) == CollisionKey(n, [x] + parts)
  {
    KeysCons(n, x, [x]);
    KeysCons(n, x, parts);
    assert Keys(n, [x]) == [n.key(x)];
    JoinCons(n.key(x), [n.key(x)]);
    JoinCons(n.key(x), parts);
  }

  lemma CollidingFiles(n: Naming, x: string)
    requires Split(n.key(x))[0] != x
    ensures At(Colliding(n, x), [x] + [x]) == IsFile(0) && At(Colliding(n, x), [x] + Split(n.key(x))) == IsFile(1)
  {
    var parts := Split(n.key(x));
    var inner := map[x := File(0), parts[0] := Chain(parts[1..], 1)];
    DirAt(map[x := Dir(inner)], x, [x]);
    DirAt(inner, x, []);
    assert [x] == [x] + [];
    DirAt(map[x := Dir(inner)], x, parts);
    DirAt(inner, parts[0], parts[1..]);
    assert parts == [parts[0]] + parts[1..];
    ChainAt(parts[1..], 1, parts[1..]);
  }

  lemma SeparatorIsContent(n: Naming, x: string)
    requires '/' in n.key(x)
    ensures ClassifyComponent(n, x) == Content
  {
    assert forall c :: c in ".trash" ==> c != '/';
    assert forall c :: c in ".obsidian" ==> c != '/';
  }

  lemma CollidingCollides(n: Naming, names: iset<string>, x: string)
    requires ClosedUnderKeys(n, names) && x in names && '/' in n.key(x)
    ensures var root := Colliding(n, x);
            root.Dir? && Over(root, names) && SiblingsDistinct(n, root) && !KeysDistinct(n, Shown(n, root, []))
  {
    var parts := Split(n.key(x));
    CollidingTidy(n, names, x);
    PiecesOfKey(n, names, x);
    CollidingKeys(n, x, parts);
    CollidingFiles(n, x);
    SeparatorIsContent(n, x);
    ShownAt(n, Colliding(n, x), [x] + [x]);
    ShownAt(n, Colliding(n, x), [x] + parts);
    assert |[x] + [x]| != |[x] + parts|;
  }

  /** A key function like NFKC on a few names: the fullwidth solidus becomes `/`. */
  function Folding(): Naming {
    Naming(c => if c == "a\U{FF0F}b" then "a/b" else c, c => '\\' !in c)
  }

  const WIDE := "a\U{FF0F}b"

  /** Two names that are their own keys, and a third whose key joins them. */
  lemma JoinedName(n: Naming, a: string, b: string, wide: string)
    requires LegalPath([a]) && LegalPath([b]) && LegalPath([wide]) && n.key(a) == a && n.key(b) == b && n.key(wide) == a + "/" + b
    ensures ClosedUnderKeys(n, iset{a, b, wide}) && '/' in n.key(wide)
  {
    assert a in [a] && b in [b];
    SplitPlain(a);
    SplitPlain(b);
    SplitHead(a, b);
    assert n.key(wide)[|a|] == '/';
    forall x, c | x in iset{a, b, wide} && c in Split(n.key(x)) ensures c in iset{a, b, wide} && n.key(c) == c {
      assert Split(n.key(x)) == [a] || Split(n.key(x)) == [b] || Split(n.key(x)) == [a, b];
    }
  }

  lemma FoldingFacts()
    ensures Folding().Lawful() && Folding().key("a") == "a" && Folding().key("b") == "b" && Folding().key(WIDE) == "a" + "/" + "b"
    ensures LegalPath(["a"]) && LegalPath(["b"]) && LegalPath([WIDE])
  {
    assert "a" + "/" + "b" == "a/b";
    assert |WIDE| == 3 && WIDE[0] == 'a' && WIDE[1] != '/' && WIDE[2] == 'b' && |"a"| == 1 && |"b"| == 1;
    assert |".trash"| == 6 && |".obsidian"| == 9 && |"staging"| == 7 && |"items"| == 5;
  }

  /** The names `a`, `b` and `a` solidus `b` are such a set, so the claim without the condition
      is false: this tree has distinct siblings, and two of its files share a key. */
  lemma SolidusCollides()
    ensures var n, root := Folding(), Colliding(Folding(), WIDE);
            n.Lawful() && SiblingsDistinct(n, root) && !KeysDistinct(n, Shown(n, root, []))
  {
    FoldingFacts();
    JoinedName(Folding(), "a", "b", WIDE);
    CollidingCollides(Folding(), iset{"a", "b", WIDE}, WIDE);
  }
}
