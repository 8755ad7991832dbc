// The directory tree the vault works on: a directory is a map from exact names to file
// objects or subdirectories. `At` is the view from outside, one entry per path, and the
// lemmas below say what each kind of change does to that view at every path.

module Tree {
  import opened Wrappers

  type Path = seq<string>

  datatype Node =
    | File(obj: nat)
    | Dir(entries: map<string, Node>)
    | Symlink
    | Special

  datatype Entry = Absent | IsFile(obj: nat) | IsDir | IsSymlink | IsSpecial

  function Parent(p: Path): (r: Path)
    requires p != []
    ensures p == r + [p[|p| - 1]]
  {
    p[..|p| - 1]
  }

  function Leaf(p: Path): string
    requires p != []
  {
    p[|p| - 1]
  }

  function Shape(n: Node): Entry {
    match n
    case File(o) => IsFile(o)
    case Dir(_) => IsDir
    case Symlink => IsSymlink
    case Special => IsSpecial
  }

  function Sub(n: Node, p: Path): Option<Node> {
    if p == [] then Some(n)
    else if n.Dir? && p[0] in n.entries then Sub(n.entries[p[0]], p[1..])
    else None
  }

  function At(n: Node, p: Path): Entry {
    match Sub(n, p)
    case Some(m) => Shape(m)
    case None => Absent
  }

  /** Replaces or removes the subtree at `p`, leaving everything else alone. */
  function Put(n: Node, p: Path, v: Option<Node>): Node
    requires p != []
  {
    if !n.Dir? then n
    else if |p| == 1 then
      match v
      case Some(m) => Dir(n.entries[p[0] := m])
      case None => Dir(n.entries - {p[0]})
    else if p[0] in n.entries then Dir(n.entries[p[0] := Put(n.entries[p[0]], p[1..], v)])
    else n
  }

  lemma {:induction false} SubConcat(n: Node, p: Path, q: Path)
    ensures Sub(n, p + q) == match Sub(n, p) case Some(m) => Sub(m, q) case None => None
  {
    if p == [] {
      assert p + q == q;
    } else {
      assert (p + q)[0] == p[0] && (p + q)[1..] == p[1..] + q;
      if n.Dir? && p[0] in n.entries {
        SubConcat(n.entries[p[0]], p[1..], q);
      }
    }
  }

  /** Whatever exists has a directory at every proper prefix of its path. */
  lemma PrefixIsDir(n: Node, p: Path, k: nat)
    requires k < |p| && At(n, p) != Absent
    ensures At(n, p[..k]) == IsDir
  {
    assert p == p[..k] + p[k..];
    SubConcat(n, p[..k], p[k..]);
  }

  /** The one law of `Put`: below `p` the new subtree shows, everywhere else nothing changes. */
  lemma {:induction false} PutAt(n: Node, p: Path, v: Option<Node>, q: Path)
    requires p != [] && At(n, Parent(p)) == IsDir
    ensures At(Put(n, p, v), q) ==
            if p <= q then (match v case Some(m) => At(m, q[|p|..]) case None => Absent)
            else At(n, q)
  {
    if |p| == 1 {
      assert Parent(p) == [];
      if p <= q {
        assert q[1..] == q[|p|..];
      } else if q != [] {
        assert p == [p[0]] && q[..1] == [q[0]];
      }
    } else {
      assert Parent(p)[0] == p[0] && Parent(p)[1..] == Parent(p[1..]);
      var child := n.entries[p[0]];
      if q != [] && q[0] == p[0] {
        PutAt(child, p[1..], v, q[1..]);
        assert p <= q <==> p[1..] <= q[1..] by {
          assert p == [p[0]] + p[1..] && q == [q[0]] + q[1..];
        }
        if p <= q {
          assert q[|p|..] == q[1..][|p[1..]|..];
        }
      }
    }
  }

  /** Moves whatever is at `s` to `d`: one detach and one attach. */
  function Rename(n: Node, s: Path, d: Path): Node
    requires s != [] && d != []
  {
    Put(Put(n, s, None), d, Sub(n, s))
  }

  /** What an atomic no-replace rename needs of its two ends. */
  predicate CanRename(n: Node, s: Path, d: Path) {
    s != [] && d != [] && At(n, s) != Absent && At(n, d) == Absent &&
    At(n, Parent(d)) == IsDir && !(s <= d)
  }

  /** A rename only rewrites the source prefix to the destination prefix. */
  lemma RenameAt(n: Node, s: Path, d: Path, q: Path)
    requires CanRename(n, s, d)
    ensures At(Rename(n, s, d), q) ==
            if d <= q then At(n, s + q[|d|..])
            else if s <= q then Absent
            else At(n, q)
  {
    PrefixIsDir(n, s, |s| - 1);
    assert s <= Parent(d) ==> s <= d;
    PutAt(n, s, None, Parent(d));
    PutAt(Put(n, s, None), d, Sub(n, s), q);
    PutAt(n, s, None, q);
    if d <= q {
      SubConcat(n, s, q[|d|..]);
    }
  }

  lemma RenameAll(n: Node, s: Path, d: Path)
    requires CanRename(n, s, d)
    ensures forall q {:trigger At(Rename(n, s, d), q)} ::
              At(Rename(n, s, d), q) ==
              if d <= q then At(n, s + q[|d|..])
              else if s <= q then Absent
              else At(n, q)
  {
    forall q {
      RenameAt(n, s, d, q);
    }
  }

  /** For a file the two ends are the only paths at which the rename shows. */
  lemma RenameFile(n: Node, s: Path, d: Path)
    requires CanRename(n, s, d) && At(n, s).IsFile?
    ensures forall q {:trigger At(Rename(n, s, d), q)} ::
              At(Rename(n, s, d), q) ==
              if q == d then At(n, s) else if q == s then Absent else At(n, q)
  {
    forall q ensures At(Rename(n, s, d), q) ==
                     if q == d then At(n, s) else if q == s then Absent else At(n, q)
    {
      RenameAt(n, s, d, q);
      if d <= q && q != d {
        NothingBelow(n, s, s + q[|d|..]);
        NothingBelow(n, d, q);
      } else if q == d {
        assert s + q[|d|..] == s;
      } else if s <= q && q != s {
        NothingBelow(n, s, q);
      }
    }
  }

  /** Nothing lies below a path that is not a directory. */
  lemma NothingBelow(n: Node, p: Path, q: Path)
    requires p <= q && p != q && At(n, p) != IsDir
    ensures At(n, q) == Absent
  {
    assert q[..|p|] == p;
    if At(n, q) != Absent {
      PrefixIsDir(n, q, |p|);
    }
  }

  /** Adding one leaf (an empty directory or a file) shows only at its own path. */
  lemma AddAt(n: Node, p: Path, v: Node)
    requires p != [] && At(n, Parent(p)) == IsDir && At(n, p) != IsDir
    requires v.File? || v == Dir(map[])
    ensures forall q {:trigger At(Put(n, p, Some(v)), q)} ::
              At(Put(n, p, Some(v)), q) == if q == p then Shape(v) else At(n, q)
  {
    forall q ensures At(Put(n, p, Some(v)), q) == if q == p then Shape(v) else At(n, q) {
      PutAt(n, p, Some(v), q);
      if p <= q && q != p {
        NothingBelow(n, p, q);
      }
    }
  }

  /** Removing a file shows only at its own path. */
  lemma RemoveAt(n: Node, p: Path)
    requires p != [] && At(n, p).IsFile?
    ensures forall q {:trigger At(Put(n, p, None), q)} ::
              At(Put(n, p, None), q) == if q == p then Absent else At(n, q)
  {
    PrefixIsDir(n, p, |p| - 1);
    forall q ensures At(Put(n, p, None), q) == if q == p then Absent else At(n, q) {
      PutAt(n, p, None, q);
      if p <= q && q != p {
        NothingBelow(n, p, q);
      }
    }
  }

  lemma SubOne(n: Node, x: string)
    requires n.Dir?
    ensures At(n, [x]) != Absent <==> x in n.entries
  {
    assert [x][1..] == [];
    if x in n.entries {
      assert Sub(n, [x]) == Sub(n.entries[x], []);
    }
  }

  /** The view determines the tree. */
  lemma {:induction false} SameTree(a: Node, b: Node)
    requires forall p :: At(a, p) == At(b, p)
    ensures a == b
  {
    assert At(a, []) == At(b, []);
    if a.Dir? {
      forall x ensures x in a.entries <==> x in b.entries {
        assert At(a, [x]) == At(b, [x]);
        SubOne(a, x);
        SubOne(b, x);
      }
      forall x | x in a.entries ensures a.entries[x] == b.entries[x] {
        forall p ensures At(a.entries[x], p) == At(b.entries[x], p) {
          assert At(a, [x] + p) == At(b, [x] + p);
        }
        SameTree(a.entries[x], b.entries[x]);
      }
      assert a.entries == b.entries;
    }
  }

  /** The names in the directory at `d`. */
  function Names(n: Node, d: Path): set<string> {
    match Sub(n, d)
    case Some(Dir(entries)) => entries.Keys
    case _ => {}
  }

  lemma NamesAt(n: Node, d: Path)
    ensures forall x :: x in Names(n, d) <==> At(n, d + [x]) != Absent
  {
    forall x ensures x in Names(n, d) <==> At(n, d + [x]) != Absent {
      SubConcat(n, d, [x]);
    }
  }
}
