// Sequences of content operations: siblings with distinct keys stay so, and therefore the
// inventory of the vault never meets two files with one key.

module ContentRuns {
  import opened Tree
  import opened Paths
  import opened Disk
  import opened Mutations
  import opened CaseRenaming
  import opened TrashProtocol
  import opened TrashCalls
  import opened Inventories

  datatype Operation =
    | Directories(path: Path)
    | Create(path: Path, contents: Bytes, sha256: Bytes -> string, digest: string, maxBytes: nat, temp: string)
    | Write(path: Path, contents: Bytes, intent: WriteIntent, temp: string)
    | Replace(path: Path, expected: FileRevision, contents: Bytes, maxBytes: nat, temp: string)
    | Move(path: Path, destination: Path, expected: FileRevision, mode: Mode)
    | MoveAny(path: Path, destination: Path, intent: WriteIntent)
    | Respell(ends: Ends, expected: FileRevision, mode: Mode)
    | Restore(id: string, path: Path, digest: string)

  /** A name that a filesystem can hold and whose key holds no separator. */
  predicate PlainName(n: Naming, c: string) {
    c != "" && c != "." && c != ".." && '/' !in c && '/' !in n.key(c)
  }

  /** A vault path of plain names. */
  predicate PlainPath(n: Naming, p: Path) {
    Canonical(n, p) && forall c :: c in p ==> PlainName(n, c)
  }

  /** Every name in the tree is plain. */
  ghost predicate PlainTree(n: Naming, root: Node) {
    forall p, c :: At(root, p) != Absent && c in p ==> PlainName(n, c)
  }

  /** Operations take vault paths of plain names, which a caller can check; a temporary name is
      not the name it stands in for. */
  predicate WellPosed(n: Naming, o: Operation) {
    match o
    case Directories(p) => PlainPath(n, p)
    case Create(p, _, _, _, _, temp) => PlainPath(n, p) && temp != Leaf(p)
    case Write(p, _, _, temp) => PlainPath(n, p) && temp != Leaf(p)
    case Replace(p, _, _, _, temp) => PlainPath(n, p) && temp != Leaf(p)
    case Move(p, d, _, _) => p != [] && PlainPath(n, d)
    case MoveAny(p, d, _) => p != [] && PlainPath(n, d)
    case Respell(e, _, _) => e.source != [] && e.temporary != [] && PlainPath(n, e.destination)
    case Restore(_, p, _) => PlainPath(n, p)
  }

  /** What every successful operation keeps of the vault. */
  ghost predicate Tidy(n: Naming, root: Node) {
    SiblingsDistinct(n, root) && PlainTree(n, root)
  }

  /** Nothing is new in the tree but prefixes of a plain path. */
  lemma StillPlain(n: Naming, pre: Node, post: Node, p: Path)
    requires PlainTree(n, pre) && PlainPath(n, p)
    requires forall q :: At(post, q) != Absent ==> At(pre, q) != Absent || q <= p
    ensures PlainTree(n, post)
  {
    forall q, c | At(post, q) != Absent && c in q ensures PlainName(n, c) {
      if At(pre, q) == Absent {
        assert c in p;
      }
    }
  }

  /** A moved subtree keeps its inner names. */
  lemma MovedStaysPlain(n: Naming, pre: Node, post: Node, s: Path, d: Path)
    requires PlainTree(n, pre) && PlainPath(n, d) && Moves(pre, post, s, d)
    ensures PlainTree(n, post)
  {
    forall q, c | At(post, q) != Absent && c in q ensures PlainName(n, c) {
      if d <= q {
        var rest := q[|d|..];
        assert q == d + rest;
        assert At(pre, s + rest) != Absent && (c in d || c in s + rest);
      } else {
        MovedAway(pre, post, s, d, q);
      }
    }
  }

  lemma MovedAway(pre: Node, post: Node, s: Path, d: Path, q: Path)
    requires Moves(pre, post, s, d) && !(d <= q)
    ensures At(post, q) == if s <= q then Absent else At(pre, q)
  {
    if s <= q {
      assert q == s + q[|s|..];
    }
  }

  lemma {:induction false} JoinCancels(d: Path, x: string, y: string)
    requires Join(d + [x]) == Join(d + [y])
    ensures x == y
  {
    if d == [] {
      assert d + [x] == [x] && d + [y] == [y];
    } else {
      assert (d + [x])[0] == d[0] && (d + [x])[1..] == d[1..] + [x];
      assert (d + [y])[0] == d[0] && (d + [y])[1..] == d[1..] + [y];
      var head := d[0] + "/";
      assert Join(d + [x])[|head|..] == Join(d[1..] + [x]) && Join(d + [y])[|head|..] == Join(d[1..] + [y]);
      JoinCancels(d[1..], x, y);
    }
  }

  /** Two spellings accepted for a case rename differ only in a name with one key. */
  lemma SameLeafKey(n: Naming, p: Path, q: Path)
    requires p != [] && q != [] && Parent(p) == Parent(q) && CollisionKey(n, p) == CollisionKey(n, q)
    ensures n.key(Leaf(p)) == n.key(Leaf(q))
  {
    var d := Keys(n, Parent(p));
    assert Keys(n, p) == d + [n.key(Leaf(p))] && Keys(n, q) == d + [n.key(Leaf(q))];
    JoinCancels(d, n.key(Leaf(p)), n.key(Leaf(q)));
  }

  /** A finished case rename keeps siblings apart. */
  lemma RespellKeepsDistinct(n: Naming, pre: Node, post: Node, e: Ends, mode: Mode)
    requires e.Accepted(n) && CaseStep(n, pre, post, e, mode) && SiblingsDistinct(n, pre)
    requires e.Present(post) == (false, false, true) && e.Alone(n, post)
    ensures SiblingsDistinct(n, post)
  {
    if post != pre {
      RespellShows(n, pre, post, e, mode);
      SameLeafKey(n, e.source, e.destination);
      forall d, x, y | At(post, d + [x]) != Absent && At(post, d + [y]) != Absent && n.key(x) == n.key(y) ensures x == y {
        OtherName(n, post, e, d, x, y);
        OtherName(n, post, e, d, y, x);
      }
    }
  }

  lemma RespellShows(n: Naming, pre: Node, post: Node, e: Ends, mode: Mode)
    requires e.Accepted(n) && CaseStep(n, pre, post, e, mode) && post != pre && e.Present(post) == (false, false, true)
    ensures forall q :: q != e.destination && At(post, q) != Absent ==> At(pre, q) != Absent
  {
    var from := if mode == Resume then e.temporary else e.source;
    PrefixIsDir(pre, from, |from| - 1);
    assert from[..|from| - 1] == Parent(e.source);
    CaseStepKeeps(n, pre, post, e, mode, At(pre, from).obj);
  }

  lemma OtherName(n: Naming, post: Node, e: Ends, d: Path, x: string, y: string)
    requires e.Accepted(n) && e.Present(post) == (false, false, true) && e.Alone(n, post)
    requires n.key(Leaf(e.source)) == n.key(Leaf(e.destination))
    requires At(post, d + [x]) != Absent && At(post, d + [y]) != Absent && n.key(x) == n.key(y)
    ensures d + [x] == e.destination ==> x == y
  {
    if d + [x] == e.destination {
      assert d == Parent(e.destination) && x == Leaf(e.destination);
      assert e.source == d + [Leaf(e.source)] && e.temporary == d + [Leaf(e.temporary)];
    }
  }

  lemma CreatedStaysPlain(n: Naming, pre: State, post: State, p: Path, contents: Bytes)
    requires PlainTree(n, pre.root) && PlainPath(n, p) && Created(pre, post, p, contents)
    ensures PlainTree(n, post.root)
  {
    assert Parent(p) <= p;
    StillPlain(n, pre.root, post.root, p);
  }

  lemma WrittenStaysPlain(n: Naming, pre: State, post: State, p: Path, contents: Bytes)
    requires PlainTree(n, pre.root) && PlainPath(n, p) && Written(pre, post, p, contents)
    ensures PlainTree(n, post.root)
  {
    StillPlain(n, pre.root, post.root, p);
  }

  /** One operation. Success keeps the vault tidy. */
  method Perform(t: TrashStore, o: Operation) returns (ok: bool)
    requires t.Valid() && WellPosed(t.vault.naming, o) && Tidy(t.vault.naming, t.vault.root)
    modifies t.vault`root, t.vault`steps, t.vault`objects, t.vault`next
    ensures t.Valid()
    ensures ok ==> Tidy(t.vault.naming, t.vault.root)
  {
    match o {
      case Directories(_) => ok := PerformDirectories(t, o);
      case Create(_, _, _, _, _, _) => ok := PerformCreate(t, o);
      case Write(_, _, _, _) => ok := PerformWrite(t, o);
      case Replace(_, _, _, _, _) => ok := PerformReplace(t, o);
      case Move(_, _, _, _) => ok := PerformMove(t, o);
      case MoveAny(_, _, _) => ok := PerformMoveAny(t, o);
      case Respell(_, _, _) => ok := PerformRespell(t, o);
      case Restore(_, _, _) => ok := PerformRestore(t, o);
    }
  }

  method PerformDirectories(t: TrashStore, o: Operation) returns (ok: bool)
    requires t.Valid() && o.Directories? && WellPosed(t.vault.naming, o) && Tidy(t.vault.naming, t.vault.root)
    modifies t.vault`root, t.vault`steps
    ensures t.Valid() && (ok ==> Tidy(t.vault.naming, t.vault.root))
  {
    ghost var pre := t.vault.root;
    var r := CreateDirectories(t.vault, o.path);
    ok := r.Done?;
    StillPlain(t.vault.naming, pre, t.vault.root, o.path);
  }

  method PerformCreate(t: TrashStore, o: Operation) returns (ok: bool)
    requires t.Valid() && o.Create? && WellPosed(t.vault.naming, o) && Tidy(t.vault.naming, t.vault.root)
    modifies t.vault`root, t.vault`steps, t.vault`objects, t.vault`next
    ensures t.Valid() && (ok ==> Tidy(t.vault.naming, t.vault.root))
  {
    ghost var pre := t.vault.View();
    var r := CreateContent(t.vault, o.path, o.contents, o.sha256, o.digest, |o.contents|, o.maxBytes, o.temp);
    ok := r.Done?;
    if ok {
      CreatedStaysPlain(t.vault.naming, pre, t.vault.View(), o.path, o.contents);
    }
  }

  method PerformWrite(t: TrashStore, o: Operation) returns (ok: bool)
    requires t.Valid() && o.Write? && WellPosed(t.vault.naming, o) && Tidy(t.vault.naming, t.vault.root)
    modifies t.vault`root, t.vault`steps, t.vault`objects, t.vault`next
    ensures t.Valid() && (ok ==> Tidy(t.vault.naming, t.vault.root))
  {
    ghost var pre := t.vault.View();
    var r := AtomicWrite(t.vault, o.path, o.contents, o.intent, o.temp);
    ok := r.Done?;
    if ok {
      WrittenStaysPlain(t.vault.naming, pre, t.vault.View(), o.path, o.contents);
    }
  }

  method PerformReplace(t: TrashStore, o: Operation) returns (ok: bool)
    requires t.Valid() && o.Replace? && WellPosed(t.vault.naming, o) && Tidy(t.vault.naming, t.vault.root)
    modifies t.vault`root, t.vault`steps, t.vault`objects, t.vault`next
    ensures t.Valid() && (ok ==> Tidy(t.vault.naming, t.vault.root))
  {
    ghost var pre := t.vault.View();
    var r := ReplaceContent(t.vault, o.path, o.expected, o.contents, o.maxBytes, o.temp);
    ok := r.Done?;
    if ok {
      WrittenStaysPlain(t.vault.naming, pre, t.vault.View(), o.path, o.contents);
    }
  }

  /** A content move keeps the vault tidy whatever it returns. */
  method PerformMove(t: TrashStore, o: Operation) returns (ok: bool)
    requires t.Valid() && o.Move? && WellPosed(t.vault.naming, o) && Tidy(t.vault.naming, t.vault.root)
    modifies t.vault`root, t.vault`steps
    ensures t.Valid() && Tidy(t.vault.naming, t.vault.root)
  {
    ghost var pre := t.vault.root;
    var r, _ := t.vault.MoveContent(o.path, o.destination, o.expected, o.mode);
    ok := r.Done?;
    if t.vault.root != pre {
      var d, k := o.destination, |o.destination| - 1;
      assert NoCollision(t.vault.naming, pre, d[..k], d[k]);
      MoveKeepsDistinct(t.vault.naming, pre, o.path, d);
      MovesByPrefix(pre, o.path, d);
      MovedStaysPlain(t.vault.naming, pre, t.vault.root, o.path, d);
    }
  }

  method PerformMoveAny(t: TrashStore, o: Operation) returns (ok: bool)
    requires t.Valid() && o.MoveAny? && WellPosed(t.vault.naming, o) && Tidy(t.vault.naming, t.vault.root)
    modifies t.vault`root, t.vault`steps
    ensures t.Valid() && (ok ==> Tidy(t.vault.naming, t.vault.root))
  {
    ghost var pre := t.vault.root;
    var r := AtomicMove(t.vault, o.path, o.destination, o.intent);
    ok := r.Done?;
    if ok {
      MovedStaysPlain(t.vault.naming, pre, t.vault.root, o.path, o.destination);
    }
  }

  method PerformRespell(t: TrashStore, o: Operation) returns (ok: bool)
    requires t.Valid() && o.Respell? && WellPosed(t.vault.naming, o) && Tidy(t.vault.naming, t.vault.root)
    modifies t.vault`root, t.vault`steps
    ensures t.Valid() && (ok ==> Tidy(t.vault.naming, t.vault.root))
  {
    ghost var pre := t.vault.root;
    var r := CaseRename(t.vault, o.ends, o.expected, o.mode);
    ok := r.Done?;
    if ok && t.vault.root != pre {
      RespellKeepsDistinct(t.vault.naming, pre, t.vault.root, o.ends, o.mode);
      RespellShows(t.vault.naming, pre, t.vault.root, o.ends, o.mode);
      StillPlain(t.vault.naming, pre, t.vault.root, o.ends.destination);
    }
  }

  /** So does a restore. */
  method PerformRestore(t: TrashStore, o: Operation) returns (ok: bool)
    requires t.Valid() && o.Restore? && WellPosed(t.vault.naming, o) && Tidy(t.vault.naming, t.vault.root)
    modifies t.vault`root, t.vault`steps
    ensures t.Valid() && Tidy(t.vault.naming, t.vault.root)
  {
    ghost var pre := t.vault.root;
    var r, _ := t.RestoreItem(o.id, o.path, o.digest);
    ok := r.Done?;
    if t.vault.root != pre {
      MoveKeepsDistinct(t.vault.naming, pre, Payload(Items, o.id), o.path);
      MovesByPrefix(pre, Payload(Items, o.id), o.path);
      MovedStaysPlain(t.vault.naming, pre, t.vault.root, Payload(Items, o.id), o.path);
    }
  }

  /** What a tidy vault offers to an inventory: names a filesystem can hold, and distinct keys. */
  lemma TidyGivesKeys(n: Naming, root: Node)
    requires Tidy(n, root) && root.Dir?
    ensures LegalNames(root) && PlainKeys(n, root) && KeysDistinct(n, Shown(n, root, []))
  {
    SiblingsGiveKeysDistinct(n, root);
  }

  /** Every run of successful operations on plain paths keeps a tidy vault tidy, so its files
      have distinct keys, which is what an inventory and an index rebuild ask for. */
  method PerformAll(t: TrashStore, operations: seq<Operation>) returns (ok: bool)
    requires t.Valid() && forall o :: o in operations ==> WellPosed(t.vault.naming, o)
    requires Tidy(t.vault.naming, t.vault.root)
    modifies t.vault`root, t.vault`steps, t.vault`objects, t.vault`next
    ensures t.Valid()
    ensures ok ==> && Tidy(t.vault.naming, t.vault.root) && LegalNames(t.vault.root)
                   && KeysDistinct(t.vault.naming, Shown(t.vault.naming, t.vault.root, []))
  {
    ok := true;
    var i := 0;
    while i < |operations| && ok
      invariant 0 <= i <= |operations| && t.Valid()
      invariant ok ==> Tidy(t.vault.naming, t.vault.root)
    {
      assert operations[i] in operations;
      ok := Perform(t, operations[i]);
      i := i + 1;
    }
    if ok {
      TidyGivesKeys(t.vault.naming, t.vault.root);
    }
  }
}
