// crates/myvault-drive/src/client.rs and transfer.rs: the bounded walks from a file up to the
// bound root, over a fixed graph of Drive metadata, and the scan that goes down from the root.

module Ancestry {
  import opened Wrappers
  import opened Paths

  const MAX_CHANGE_ANCESTRY_DEPTH := 64
  const MAX_ANCESTRY_DEPTH := 128

  /** `wellFormed` stands for the syntactic checks on identifiers, MIME type and version. */
  datatype Meta = Meta(name: string, folder: bool, native: bool, trashed: bool, parents: seq<string>, wellFormed: bool) {

    /** `validate_file` */
    predicate Valid() {
      wellFormed && name != "" && |parents| <= 1
    }
  }

  type Graph = map<string, Meta>

  /** The parent of a live folder that has exactly one. */
  function Hop(g: Graph, id: string): Option<string> {
    if id in g && g[id].Valid() && !g[id].trashed && g[id].folder && |g[id].parents| == 1 then Some(g[id].parents[0]) else None
  }

  /** `id` is `k` hops below the root, through live folders with a single parent. */
  predicate Reaches(g: Graph, root: string, id: string, k: nat)
    decreases k
  {
    if k == 0 then id == root
    else id != root && Hop(g, id).Some? && Reaches(g, root, Hop(g, id).value, k - 1)
  }

  lemma {:induction false} ReachesOnce(g: Graph, root: string, id: string, j: nat, k: nat)
    requires Reaches(g, root, id, j) && Reaches(g, root, id, k)
    ensures j == k
    decreases k
  {
    if j > 0 && k > 0 {
      ReachesOnce(g, root, Hop(g, id).value, j - 1, k - 1);
    }
  }

  /** A set of ids that cannot be left upwards and does not hold the root. */
  ghost predicate Trap(g: Graph, root: string, ids: set<string>) {
    forall x :: x in ids ==> x != root && (Hop(g, x).Some? ==> Hop(g, x).value in ids)
  }

  lemma {:induction false} TrappedNeverReaches(g: Graph, root: string, ids: set<string>, id: string, k: nat)
    requires Trap(g, root, ids) && id in ids
    ensures !Reaches(g, root, id, k)
    decreases k
  {
    if k > 0 && Hop(g, id).Some? {
      TrappedNeverReaches(g, root, ids, Hop(g, id).value, k - 1);
    }
  }

  // ----- Below the root

  /** `current` is where the walk from `folder` stands after `i` hops. */
  ghost predicate Shifted(g: Graph, root: string, folder: string, current: string, i: nat) {
    && (forall k: nat :: k < i ==> !Reaches(g, root, folder, k))
    && (forall k: nat, m: nat :: k == i + m ==> (Reaches(g, root, folder, k) <==> Reaches(g, root, current, m)))
  }

  /** `ensure_folder_below_root`, with the binding already checked: accepts exactly the folders
      at most 128 hops below the root. The set of visited ids only ends a walk that could not
      have succeeded. */
  method EnsureFolderBelowRoot(g: Graph, root: string, folder: string) returns (ok: bool)
    ensures ok ==> exists k: nat :: k <= MAX_ANCESTRY_DEPTH && Reaches(g, root, folder, k)
    ensures (exists k: nat :: k <= MAX_ANCESTRY_DEPTH && Reaches(g, root, folder, k)) ==> ok
  {
    if folder == root {
      assert Reaches(g, root, folder, 0);
      return true;
    }
    var current := folder;
    var visited: set<string> := {};
    var i := 0;
    while i < MAX_ANCESTRY_DEPTH
      invariant 0 <= i <= MAX_ANCESTRY_DEPTH && current != root
      invariant Shifted(g, root, folder, current, i)
      invariant forall x :: x in visited ==> x != root && Hop(g, x).Some? && Hop(g, x).value in visited + {current}
    {
      if current in visited {
        assert Trap(g, root, visited);
        NeverReaches(g, root, folder, current, i, visited);
        return false;
      }
      visited := visited + {current};
      if Hop(g, current).None? {
        NeverReaches(g, root, folder, current, i, {current});
      }
      if current !in g || !g[current].Valid() {
        return false;
      }
      var file := g[current];
      if file.trashed || !file.folder || |file.parents| != 1 {
        return false;
      }
      var parent := file.parents[0];
      if parent == root {
        OneHop(g, root, current, 1);
        var k := i + 1;
        assert 0 <= k <= MAX_ANCESTRY_DEPTH && Reaches(g, root, folder, k);
        return true;
      }
      ShiftedHop(g, root, folder, current, i);
      current := parent;
      i := i + 1;
    }
    assert Reaches(g, root, folder, i) <==> Reaches(g, root, current, 0);
    assert forall k: nat :: k <= MAX_ANCESTRY_DEPTH ==> !Reaches(g, root, folder, k);
    return false;
  }

  lemma NeverReaches(g: Graph, root: string, folder: string, current: string, i: nat, visited: set<string>)
    requires Shifted(g, root, folder, current, i) && Trap(g, root, visited) && current in visited
    ensures forall k: nat :: !Reaches(g, root, folder, k)
  {
    forall k: nat ensures !Reaches(g, root, folder, k) {
      if k >= i {
        TrappedNeverReaches(g, root, visited, current, k - i);
        assert k == i + (k - i);
      }
    }
  }

  lemma OneHop(g: Graph, root: string, id: string, k: nat)
    requires id != root && Hop(g, id) == Some(root) && k == 1
    ensures Reaches(g, root, id, k)
  {
    assert Reaches(g, root, root, k - 1);
  }

  lemma ShiftedHop(g: Graph, root: string, folder: string, current: string, i: nat)
    requires Shifted(g, root, folder, current, i) && current != root && Hop(g, current).Some?
    ensures Shifted(g, root, folder, Hop(g, current).value, i + 1)
  {
    var next := Hop(g, current).value;
    forall k: nat, m: nat | k == i + 1 + m ensures Reaches(g, root, folder, k) <==> Reaches(g, root, next, m) {
      assert Reaches(g, root, folder, k) <==> Reaches(g, root, current, m + 1);
    }
    assert Reaches(g, root, folder, i) <==> Reaches(g, root, current, 0);
  }

  // ----- Resolving a change

  datatype Change = Change(fileId: string, removed: bool, file: Option<(string, Meta)>)

  datatype Resolved = Removed | Inside(path: string) | Outside | Ambiguous | Malformed

  /** `to` is `k` hops above `from`, and the root is on none of the ids of the way. */
  ghost predicate Climbs(g: Graph, root: string, from: string, to: string, k: nat)
    decreases k
  {
    from != root && (if k == 0 then from == to else Hop(g, from).Some? && Climbs(g, root, Hop(g, from).value, to, k - 1))
  }

  /** A live folder without parents: the top of a drive. */
  predicate IsTop(g: Graph, id: string) {
    id in g && g[id].Valid() && !g[id].trashed && g[id].folder && g[id].parents == []
  }

  /** Metadata that must not be trusted. */
  predicate IsBroken(g: Graph, id: string) {
    id in g && (!g[id].wellFormed || g[id].name == "" || |g[id].parents| > 1)
  }

  /** Fewer than `fuel` hops above `from`, without meeting the root, something is broken. */
  ghost predicate MeetsBroken(g: Graph, root: string, from: string, fuel: nat) {
    exists k: nat, x :: k < fuel && Climbs(g, root, from, x, k) && IsBroken(g, x)
  }

  /** Fewer than `fuel` hops above `from`, without meeting the root, there is a top. */
  ghost predicate MeetsTop(g: Graph, root: string, from: string, fuel: nat) {
    exists k: nat, x :: k < fuel && Climbs(g, root, from, x, k) && IsTop(g, x)
  }

  /** The walk without a set of visited ids. `names` are the components found so far. */
  function Walk(g: Graph, root: string, parent: string, names: seq<string>, fuel: nat): Result<seq<string>, Resolved>
    decreases fuel
  {
    if fuel == 0 then Err(Ambiguous)
    else if parent == root then Ok(names)
    else if parent !in g then Err(Ambiguous)
    else if !g[parent].Valid() then Err(Malformed)
    else if g[parent].trashed || !g[parent].folder then Err(Ambiguous)
    else if |g[parent].parents| == 0 then Err(Outside)
    else Walk(g, root, g[parent].parents[0], [g[parent].name] + names, fuel - 1)
  }

  /** What a change of the file `id` with metadata `file` resolves to. */
  function Resolution(g: Graph, root: string, id: string, file: Meta, attachable: string -> bool): Resolved {
    if !file.Valid() then Malformed
    else if id == root then Outside
    else if (file.native && !file.folder) || |file.parents| != 1 then Ambiguous
    else match Walk(g, root, file.parents[0], [file.name], MAX_CHANGE_ANCESTRY_DEPTH)
      case Ok(names) => if attachable(Join(names)) then Inside(Join(names)) else Malformed
      case Err(e) => e
  }

  function Reverse(s: seq<string>): (r: seq<string>)
    ensures |r| == |s|
  {
    if s == [] then [] else [s[|s| - 1]] + Reverse(s[..|s| - 1])
  }

  lemma ReverseAppend(s: seq<string>, x: string)
    ensures Reverse(s + [x]) == [x] + Reverse(s)
  {
    assert (s + [x])[..|s|] == s;
  }

  /** Every id in the set leads the walk to an ambiguous end or back into the set. */
  ghost predicate Endless(g: Graph, root: string, ids: set<string>) {
    forall x :: x in ids ==> && x != root && x in g && g[x].Valid()
                             && (g[x].trashed || !g[x].folder || (|g[x].parents| == 1 && g[x].parents[0] in ids))
  }

  lemma {:induction false} EndlessIsAmbiguous(g: Graph, root: string, ids: set<string>, id: string, names: seq<string>, fuel: nat)
    requires Endless(g, root, ids) && id in ids
    ensures Walk(g, root, id, names, fuel) == Err(Ambiguous)
    decreases fuel
  {
    if fuel > 0 && !g[id].trashed && g[id].folder {
      EndlessIsAmbiguous(g, root, ids, g[id].parents[0], [g[id].name] + names, fuel - 1);
    }
  }

  /** `resolve_change_below_root`. The answer is explained by hops and by the scan over the graph
      in which the changed file has the metadata of the change; the visited ids never change it.
      `attachable` tells which paths `to_remote_entry` accepts for the file. */
  method ResolveChange(g: Graph, root: string, change: Change, attachable: string -> bool) returns (r: Resolved)
    ensures change.removed || (change.file.Some? && change.file.value.1.trashed) ==> r == Removed
    ensures !change.removed && (change.file.None? || (!change.file.value.1.trashed && change.file.value.0 != change.fileId)) ==> r == Malformed
    ensures !change.removed && change.file.Some? && !change.file.value.1.trashed && change.file.value.0 == change.fileId ==>
              Explained(g[change.fileId := change.file.value.1], root, change.fileId, attachable, r)
  {
    r := ResolveByWalk(g, root, change, attachable);
    if !change.removed && change.file.Some? && !change.file.value.1.trashed && change.file.value.0 == change.fileId {
      ExplainedExactly(g[change.fileId := change.file.value.1], root, change.fileId, attachable, r);
    }
  }

  /** The loop itself, against the plain walk. */
  method ResolveByWalk(g: Graph, root: string, change: Change, attachable: string -> bool) returns (r: Resolved)
    ensures change.removed || (change.file.Some? && change.file.value.1.trashed) ==> r == Removed
    ensures !change.removed && (change.file.None? || (!change.file.value.1.trashed && change.file.value.0 != change.fileId)) ==> r == Malformed
    ensures !change.removed && change.file.Some? && !change.file.value.1.trashed && change.file.value.0 == change.fileId ==>
              var file := change.file.value.1;
              r == Resolution(g[change.fileId := file], root, change.fileId, file, attachable)
  {
    if change.removed || (change.file.Some? && change.file.value.1.trashed) {
      return Removed;
    }
    if change.file.None? || change.file.value.0 != change.fileId {
      return Malformed;
    }
    var file, id := change.file.value.1, change.fileId;
    if !file.Valid() {
      return Malformed;
    }
    if id == root {
      return Outside;
    }
    if (file.native && !file.folder) || |file.parents| != 1 {
      return Ambiguous;
    }
    var names := [file.name];
    var parent := file.parents[0];
    var visited := {id};
    ghost var now := g[id := file];
    ghost var expected := Walk(now, root, parent, [file.name], MAX_CHANGE_ANCESTRY_DEPTH);
    assert Reverse(names) == [file.name] by { ReverseAppend([], file.name); assert [] + [file.name] == names; }
    var i := 0;
    while i < MAX_CHANGE_ANCESTRY_DEPTH
      invariant 0 <= i <= MAX_CHANGE_ANCESTRY_DEPTH
      invariant id in visited && Walk(now, root, parent, Reverse(names), MAX_CHANGE_ANCESTRY_DEPTH - i) == expected
      invariant forall x :: x in visited ==> && x != root && x in now && now[x].Valid()
                                             && |now[x].parents| == 1 && now[x].parents[0] in visited + {parent}
    {
      if parent == root {
        var path := Join(Reverse(names));
        return if attachable(path) then Inside(path) else Malformed;
      }
      if parent in visited {
        assert Endless(now, root, visited);
        EndlessIsAmbiguous(now, root, visited, parent, Reverse(names), MAX_CHANGE_ANCESTRY_DEPTH - i);
        return Ambiguous;
      }
      visited := visited + {parent};
      if parent !in g {
        return Ambiguous;
      }
      var meta := g[parent];
      if !meta.Valid() {
        return Malformed;
      }
      if meta.trashed || !meta.folder {
        return Ambiguous;
      }
      ReverseAppend(names, meta.name);
      names := names + [meta.name];
      if |meta.parents| == 0 {
        return Outside;
      }
      parent := meta.parents[0];
      i := i + 1;
    }
    return Ambiguous;
  }

  lemma {:induction false} ReachesIsWalked(g: Graph, root: string, parent: string, names: seq<string>, fuel: nat, k: nat)
    requires Reaches(g, root, parent, k) && k < fuel
    ensures Walk(g, root, parent, names, fuel).Ok?
    decreases fuel
  {
    if k > 0 {
      ReachesIsWalked(g, root, g[parent].parents[0], [g[parent].name] + names, fuel - 1, k - 1);
    }
  }

  lemma {:induction false} WalkedReaches(g: Graph, root: string, parent: string, names: seq<string>, fuel: nat) returns (k: nat)
    requires Walk(g, root, parent, names, fuel).Ok?
    ensures k < fuel && Reaches(g, root, parent, k)
    decreases fuel
  {
    if parent == root {
      k := 0;
    } else {
      k := WalkedReaches(g, root, g[parent].parents[0], [g[parent].name] + names, fuel - 1);
      k := k + 1;
    }
  }

  /** The walk succeeds exactly on a parent fewer hops below the root than its fuel. */
  lemma WalkSucceeds(g: Graph, root: string, parent: string, names: seq<string>, fuel: nat)
    ensures Walk(g, root, parent, names, fuel).Ok? ==> exists k: nat :: k < fuel && Reaches(g, root, parent, k)
    ensures (exists k: nat :: k < fuel && Reaches(g, root, parent, k)) ==> Walk(g, root, parent, names, fuel).Ok?
  {
    if k: nat :| k < fuel && Reaches(g, root, parent, k) {
      ReachesIsWalked(g, root, parent, names, fuel, k);
    }
    if Walk(g, root, parent, names, fuel).Ok? {
      var k := WalkedReaches(g, root, parent, names, fuel);
      assert k < fuel && Reaches(g, root, parent, k);
    }
  }

  // ----- Where the walk ends when it does not reach the root

  lemma {:induction false} ClimbOneMore(g: Graph, root: string, from: string, k: nat, x: string)
    requires from != root && Hop(g, from).Some? && Climbs(g, root, Hop(g, from).value, x, k)
    ensures Climbs(g, root, from, x, k + 1)
  {
  }

  /** Nothing that the climb of one more hop meets is lost or gained. */
  lemma MeetsAbove(g: Graph, root: string, from: string, fuel: nat)
    requires fuel > 0 && from != root && Hop(g, from).Some?
    ensures MeetsBroken(g, root, Hop(g, from).value, fuel - 1) ==> MeetsBroken(g, root, from, fuel)
    ensures MeetsTop(g, root, Hop(g, from).value, fuel - 1) ==> MeetsTop(g, root, from, fuel)
    ensures MeetsBroken(g, root, from, fuel) ==> MeetsBroken(g, root, Hop(g, from).value, fuel - 1)
    ensures MeetsTop(g, root, from, fuel) ==> MeetsTop(g, root, Hop(g, from).value, fuel - 1)
  {
    var next := Hop(g, from).value;
    if k: nat, x :| k < fuel - 1 && Climbs(g, root, next, x, k) && IsBroken(g, x) {
      ClimbOneMore(g, root, from, k, x);
    }
    if k: nat, x :| k < fuel - 1 && Climbs(g, root, next, x, k) && IsTop(g, x) {
      ClimbOneMore(g, root, from, k, x);
    }
    if k: nat, x :| k < fuel && Climbs(g, root, from, x, k) && IsBroken(g, x) {
      assert k > 0 && Climbs(g, root, next, x, k - 1);
    }
    if k: nat, x :| k < fuel && Climbs(g, root, from, x, k) && IsTop(g, x) {
      assert k > 0 && Climbs(g, root, next, x, k - 1);
    }
  }

  /** Where no hop leads on, only the place itself can be met. */
  lemma MeetsHere(g: Graph, root: string, from: string, fuel: nat)
    requires fuel > 0 && from != root && Hop(g, from).None?
    ensures MeetsBroken(g, root, from, fuel) ==> IsBroken(g, from)
    ensures IsBroken(g, from) ==> MeetsBroken(g, root, from, fuel)
    ensures MeetsTop(g, root, from, fuel) ==> IsTop(g, from)
    ensures IsTop(g, from) ==> MeetsTop(g, root, from, fuel)
  {
    assert Climbs(g, root, from, from, 0);
  }

  /** Each end of the walk in terms of hops alone. */
  lemma {:induction false} WalkEnds(g: Graph, root: string, from: string, names: seq<string>, fuel: nat)
    ensures Walk(g, root, from, names, fuel) == Err(Malformed) ==> MeetsBroken(g, root, from, fuel)
    ensures MeetsBroken(g, root, from, fuel) ==> Walk(g, root, from, names, fuel) == Err(Malformed)
    ensures Walk(g, root, from, names, fuel) == Err(Outside) ==> MeetsTop(g, root, from, fuel)
    ensures MeetsTop(g, root, from, fuel) ==> Walk(g, root, from, names, fuel) == Err(Outside)
    decreases fuel
  {
    if fuel > 0 && from != root {
      if Hop(g, from).Some? {
        WalkEnds(g, root, Hop(g, from).value, [g[from].name] + names, fuel - 1);
        MeetsAbove(g, root, from, fuel);
      } else {
        MeetsHere(g, root, from, fuel);
      }
    }
  }

  // ----- The scan from the root down

  /** The path `scan_folder_page` gives to a child. */
  function Extend(folderPath: string, name: string): string {
    if folderPath == "" then name else folderPath + "/" + name
  }

  /** The scan finds `id` with `path` on level `k`: each level lists the live children of the
      folders of the level above. */
  ghost predicate Scanned(g: Graph, root: string, k: nat, id: string, path: string)
    decreases k, 0
  {
    if k == 0 then id == root && path == ""
    else
      && id in g && id != root && g[id].Valid() && !g[id].trashed && |g[id].parents| == 1
      && exists folderPath :: ScannedFolder(g, root, k - 1, g[id].parents[0], folderPath) && path == Extend(folderPath, g[id].name)
  }

  ghost predicate ScannedFolder(g: Graph, root: string, k: nat, id: string, path: string)
    decreases k, 1
  {
    Scanned(g, root, k, id, path) && (k > 0 ==> g[id].folder)
  }

  function ExtendAll(path: string, names: seq<string>): string
    decreases |names|
  {
    if names == [] then path else ExtendAll(Extend(path, names[0]), names[1..])
  }

  lemma {:induction false} ExtendJoin(path: string, names: seq<string>)
    requires names != [] && forall n :: n in names ==> n != ""
    ensures ExtendAll(path, names) == if path == "" then Join(names) else path + "/" + Join(names)
    decreases |names|
  {
    assert names[0] in names && forall n :: n in names[1..] ==> n in names;
    if |names| > 1 {
      ExtendJoin(Extend(path, names[0]), names[1..]);
      if path != "" {
        assert path + "/" + names[0] + "/" + Join(names[1..]) == path + "/" + (names[0] + "/" + Join(names[1..]));
      }
    }
  }

  /** A walk that succeeds ends with the components the scan would have strung together. */
  lemma {:induction false} WalkIsScanned(g: Graph, root: string, parent: string, names: seq<string>, fuel: nat)
    requires Walk(g, root, parent, names, fuel).Ok? && names != [] && forall n :: n in names ==> n != ""
    ensures exists k, path :: 0 <= k < fuel && ScannedFolder(g, root, k, parent, path) &&
                              ExtendAll(path, names) == Join(Walk(g, root, parent, names, fuel).value)
    decreases fuel
  {
    if parent == root {
      assert ScannedFolder(g, root, 0, parent, "");
      ExtendJoin("", names);
    } else {
      var meta := g[parent];
      var longer := [meta.name] + names;
      WalkIsScanned(g, root, meta.parents[0], longer, fuel - 1);
      var k, path :| 0 <= k < fuel - 1 && ScannedFolder(g, root, k, meta.parents[0], path) &&
                     ExtendAll(path, longer) == Join(Walk(g, root, parent, names, fuel).value);
      assert ScannedFolder(g, root, k + 1, parent, Extend(path, meta.name));
      assert longer[1..] == names;
    }
  }

  /** And whatever the scan finds close enough to the root, the walk finds too. */
  lemma {:induction false} ScannedIsWalked(g: Graph, root: string, parent: string, names: seq<string>, fuel: nat, k: nat, path: string)
    requires ScannedFolder(g, root, k, parent, path) && k < fuel && names != [] && forall n :: n in names ==> n != ""
    ensures Walk(g, root, parent, names, fuel).Ok?
    ensures Join(Walk(g, root, parent, names, fuel).value) == ExtendAll(path, names)
    decreases fuel
  {
    if k == 0 {
      ExtendJoin("", names);
    } else {
      var meta := g[parent];
      var above :| ScannedFolder(g, root, k - 1, meta.parents[0], above) && path == Extend(above, meta.name);
      var longer := [meta.name] + names;
      ScannedIsWalked(g, root, meta.parents[0], longer, fuel - 1, k - 1, above);
      assert longer[1..] == names;
    }
  }

  lemma WalkedOnce(g: Graph, root: string, id: string, k: nat, path: string)
    requires id in g && 1 <= k <= MAX_CHANGE_ANCESTRY_DEPTH && Scanned(g, root, k, id, path)
    ensures g[id].Valid() && id != root && |g[id].parents| == 1
    ensures var walked := Walk(g, root, g[id].parents[0], [g[id].name], MAX_CHANGE_ANCESTRY_DEPTH);
            walked.Ok? && Join(walked.value) == path
  {
    var file := g[id];
    var above :| ScannedFolder(g, root, k - 1, file.parents[0], above) && path == Extend(above, file.name);
    ScannedIsWalked(g, root, file.parents[0], [file.name], MAX_CHANGE_ANCESTRY_DEPTH, k - 1, above);
    assert [file.name][1..] == [] && ExtendAll(above, [file.name]) == Extend(above, file.name);
  }

  lemma ScannedOnce(g: Graph, root: string, id: string) returns (k: nat)
    requires id in g && g[id].Valid() && id != root && |g[id].parents| == 1 && !g[id].trashed
    requires Walk(g, root, g[id].parents[0], [g[id].name], MAX_CHANGE_ANCESTRY_DEPTH).Ok?
    ensures 1 <= k <= MAX_CHANGE_ANCESTRY_DEPTH
    ensures Scanned(g, root, k, id, Join(Walk(g, root, g[id].parents[0], [g[id].name], MAX_CHANGE_ANCESTRY_DEPTH).value))
  {
    var file := g[id];
    WalkIsScanned(g, root, file.parents[0], [file.name], MAX_CHANGE_ANCESTRY_DEPTH);
    var above;
    k, above :| 0 <= k < MAX_CHANGE_ANCESTRY_DEPTH && ScannedFolder(g, root, k, file.parents[0], above) &&
                ExtendAll(above, [file.name]) == Join(Walk(g, root, file.parents[0], [file.name], MAX_CHANGE_ANCESTRY_DEPTH).value);
    assert [file.name][1..] == [] && ExtendAll(above, [file.name]) == Extend(above, file.name);
    k := k + 1;
  }

  /** A change resolves to a path exactly when the scan gives the file that path on one of the
      first 64 levels, apart from Google-native documents and paths the entry rejects. */
  lemma ResolvedAsScanned(g: Graph, root: string, id: string, attachable: string -> bool, path: string)
    requires id in g && !g[id].trashed
    ensures Resolution(g, root, id, g[id], attachable) == Inside(path) ==>
              && !(g[id].native && !g[id].folder) && attachable(path)
              && exists k: nat :: 1 <= k <= MAX_CHANGE_ANCESTRY_DEPTH && Scanned(g, root, k, id, path)
    ensures !(g[id].native && !g[id].folder) && attachable(path) &&
            (exists k: nat :: 1 <= k <= MAX_CHANGE_ANCESTRY_DEPTH && Scanned(g, root, k, id, path)) ==>
              Resolution(g, root, id, g[id], attachable) == Inside(path)
  {
    var file := g[id];
    if k: nat :| 1 <= k <= MAX_CHANGE_ANCESTRY_DEPTH && Scanned(g, root, k, id, path) {
      WalkedOnce(g, root, id, k, path);
    } else if file.Valid() && id != root && |file.parents| == 1 {
      WalkErrs(g, root, file.parents[0], [file.name], MAX_CHANGE_ANCESTRY_DEPTH);
      if Walk(g, root, file.parents[0], [file.name], MAX_CHANGE_ANCESTRY_DEPTH).Ok? {
        var k := ScannedOnce(g, root, id);
        assert Scanned(g, root, k, id, Join(Walk(g, root, file.parents[0], [file.name], MAX_CHANGE_ANCESTRY_DEPTH).value));
      }
    }
  }

  /** The scan gives the file this path on one of the first 64 levels. */
  ghost predicate ScannedWithin(g: Graph, root: string, id: string, path: string) {
    exists k: nat :: 1 <= k <= MAX_CHANGE_ANCESTRY_DEPTH && Scanned(g, root, k, id, path)
  }

  /** Which answer a change of a live file deserves, without any walk: its scanned path when it
      has one that is accepted; outside when fewer than 64 hops, none through the root, lead to
      the top of a drive; malformed when they lead to broken metadata or the path is refused;
      ambiguous otherwise. */
  ghost predicate Explained(g: Graph, root: string, id: string, attachable: string -> bool, r: Resolved)
    requires id in g
  {
    var file := g[id];
    if IsBroken(g, id) then r == Malformed
    else if id == root then r == Outside
    else if (file.native && !file.folder) || |file.parents| != 1 then r == Ambiguous
    else
      var parent := file.parents[0];
      match r
      case Inside(path) => ScannedWithin(g, root, id, path) && attachable(path)
      case Outside => MeetsTop(g, root, parent, MAX_CHANGE_ANCESTRY_DEPTH)
      case Malformed =>
        || MeetsBroken(g, root, parent, MAX_CHANGE_ANCESTRY_DEPTH)
        || exists path :: ScannedWithin(g, root, id, path) && !attachable(path)
      case Ambiguous =>
        && !MeetsTop(g, root, parent, MAX_CHANGE_ANCESTRY_DEPTH) && !MeetsBroken(g, root, parent, MAX_CHANGE_ANCESTRY_DEPTH)
        && forall path :: !ScannedWithin(g, root, id, path)
      case Removed => false
  }

  /** The walk ends at the root exactly when the scan finds the file, with the same path. */
  lemma WalkFindsScanned(g: Graph, root: string, id: string, path: string)
    requires id in g && g[id].Valid() && id != root && |g[id].parents| == 1 && !g[id].trashed
    ensures var walked := Walk(g, root, g[id].parents[0], [g[id].name], MAX_CHANGE_ANCESTRY_DEPTH);
            ScannedWithin(g, root, id, path) <==> walked.Ok? && Join(walked.value) == path
  {
    if k: nat :| 1 <= k <= MAX_CHANGE_ANCESTRY_DEPTH && Scanned(g, root, k, id, path) {
      WalkedOnce(g, root, id, k, path);
    }
    if Walk(g, root, g[id].parents[0], [g[id].name], MAX_CHANGE_ANCESTRY_DEPTH).Ok? {
      var k := ScannedOnce(g, root, id);
    }
  }

  /** Exactly one answer is explained: the one of the walk. */
  lemma ExplainedExactly(g: Graph, root: string, id: string, attachable: string -> bool, r: Resolved)
    requires id in g && !g[id].trashed
    ensures Explained(g, root, id, attachable, r) <==> r == Resolution(g, root, id, g[id], attachable)
  {
    var file := g[id];
    if file.Valid() && id != root && |file.parents| == 1 {
      var walked := Walk(g, root, file.parents[0], [file.name], MAX_CHANGE_ANCESTRY_DEPTH);
      WalkEnds(g, root, file.parents[0], [file.name], MAX_CHANGE_ANCESTRY_DEPTH);
      WalkErrs(g, root, file.parents[0], [file.name], MAX_CHANGE_ANCESTRY_DEPTH);
      forall path ensures ScannedWithin(g, root, id, path) <==> walked.Ok? && Join(walked.value) == path {
        WalkFindsScanned(g, root, id, path);
      }
      if walked.Ok? {
        assert ScannedWithin(g, root, id, Join(walked.value));
      }
    }
  }

  /** In particular a file has at most one scanned path within reach of the walk. */
  lemma ScannedPathUnique(g: Graph, root: string, id: string, p: string, q: string, j: nat, k: nat)
    requires id in g && 1 <= j <= MAX_CHANGE_ANCESTRY_DEPTH && 1 <= k <= MAX_CHANGE_ANCESTRY_DEPTH
    requires Scanned(g, root, j, id, p) && Scanned(g, root, k, id, q)
    ensures p == q
  {
    WalkedOnce(g, root, id, j, p);
    WalkedOnce(g, root, id, k, q);
  }

  /** Inside the bound root means: reaches it through live folders within the limit. */
  lemma InsideMeansReaches(g: Graph, root: string, id: string)
    requires id in g && !g[id].trashed && g[id].Valid() && id != root && |g[id].parents| == 1 && !(g[id].native && !g[id].folder)
    ensures Resolution(g, root, id, g[id], path => true).Inside? ==>
              exists k: nat :: k < MAX_CHANGE_ANCESTRY_DEPTH && Reaches(g, root, g[id].parents[0], k)
    ensures (exists k: nat :: k < MAX_CHANGE_ANCESTRY_DEPTH && Reaches(g, root, g[id].parents[0], k)) ==>
              Resolution(g, root, id, g[id], path => true).Inside?
  {
    WalkSucceeds(g, root, g[id].parents[0], [g[id].name], MAX_CHANGE_ANCESTRY_DEPTH);
    WalkErrs(g, root, g[id].parents[0], [g[id].name], MAX_CHANGE_ANCESTRY_DEPTH);
  }

  lemma {:induction false} WalkErrs(g: Graph, root: string, parent: string, names: seq<string>, fuel: nat)
    ensures Walk(g, root, parent, names, fuel).Err? ==>
              Walk(g, root, parent, names, fuel).error in {Ambiguous, Malformed, Outside}
    decreases fuel
  {
    if fuel > 0 && parent != root && Hop(g, parent).Some? {
      WalkErrs(g, root, g[parent].parents[0], [g[parent].name] + names, fuel - 1);
    }
  }
}
