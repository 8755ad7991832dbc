// Portable vault paths: their text form, the collision keys of names, and the notion of
// sibling names that stay apart on every platform.

module Paths {
  import opened Wrappers
  import opened Tree

  /** What Unicode decides and this model leaves open: the collision key of a name
      (NFKC, case fold, NFKC) and whether one component is portable. */
  datatype Naming = Naming(key: string -> string, portable: string -> bool) {

    /** Facts about the two functions that the code itself relies on. */
    ghost predicate Lawful() {
      && key(".trash") == ".trash" && key(".obsidian") == ".obsidian" && key("staging") != key("items")
      && key("manifest.json") != key("payload")
      && (forall c :: portable(c) ==> '\\' !in c)
    }
  }

  // ----- Text form

  function Join(p: Path): string {
    if p == [] then ""
    else if |p| == 1 then p[0]
    else p[0] + "/" + Join(p[1..])
  }

  function Split(s: string): (r: Path)
    ensures r != []
  {
    if s == "" then [""]
    else
      var rest := Split(s[1..]);
      if s[0] == '/' then [""] + rest
      else [[s[0]] + rest[0]] + rest[1..]
  }

  ghost predicate NoSlash(p: Path) {
    forall c :: c in p ==> '/' !in c
  }

  lemma {:induction false} SplitPlain(c: string)
    requires '/' !in c
    ensures Split(c) == [c]
  {
    if c != "" {
      SplitPlain(c[1..]);
      assert [c[0]] + c[1..] == c;
    }
  }

  lemma {:induction false} SplitHead(c: string, rest: string)
    requires '/' !in c
    ensures Split(c + "/" + rest) == [c] + Split(rest)
  {
    var s := c + "/" + rest;
    if c == "" {
      assert s[1..] == rest;
    } else {
      assert s[1..] == c[1..] + "/" + rest;
      SplitHead(c[1..], rest);
      assert [s[0]] + c[1..] == c;
    }
  }

  /** Splitting undoes joining when no component holds a separator. */
  lemma {:induction false} SplitJoin(p: Path)
    requires p != [] && NoSlash(p)
    ensures Split(Join(p)) == p
  {
    assert p[0] in p;
    if |p| == 1 {
      SplitPlain(p[0]);
    } else {
      assert forall c :: c in p[1..] ==> c in p;
      SplitHead(p[0], Join(p[1..]));
      SplitJoin(p[1..]);
      assert p == [p[0]] + p[1..];
    }
  }

  /** Joining undoes splitting, always. */
  lemma {:induction false} JoinSplit(s: string)
    ensures Join(Split(s)) == s
  {
    if s != "" {
      var rest := Split(s[1..]);
      JoinSplit(s[1..]);
      assert s == [s[0]] + s[1..];
      if s[0] == '/' {
        assert ([""] + rest)[1..] == rest;
        assert "" + "/" + Join(rest) == s;
      } else {
        var parts := [[s[0]] + rest[0]] + rest[1..];
        assert parts[1..] == rest[1..] && parts[0] == [s[0]] + rest[0];
        if |rest| == 1 {
          assert Join(parts) == parts[0];
        } else {
          assert Join(parts) == [s[0]] + (rest[0] + "/" + Join(rest[1..]));
        }
      }
    }
  }

  lemma {:induction false} SplitNoSlash(s: string)
    ensures NoSlash(Split(s))
  {
    if s != "" {
      SplitNoSlash(s[1..]);
      var rest := Split(s[1..]);
      assert rest[0] in rest;
      assert forall c :: c in rest[1..] ==> c in rest;
    }
  }

  /** Paths of slash-free components are told apart by their text. */
  lemma JoinInjective(p: Path, q: Path)
    requires p != [] && q != [] && NoSlash(p) && NoSlash(q) && Join(p) == Join(q)
    ensures p == q
  {
    SplitJoin(p);
    SplitJoin(q);
  }

  // ----- Parsing

  const MAX_PATH_BYTES := 4096
  const MAX_PATH_UTF16_UNITS := 4096

  function Utf8Len(s: string): nat {
    if s == "" then 0
    else
      var c := s[0] as int;
      (if c < 0x80 then 1 else if c < 0x800 then 2 else if c < 0x10000 then 3 else 4) + Utf8Len(s[1..])
  }

  function Utf16Len(s: string): nat {
    if s == "" then 0 else (if s[0] as int < 0x10000 then 1 else 2) + Utf16Len(s[1..])
  }

  /** The UTF-8 form of a text (section 3 of RFC 3629). */
  function Utf8(s: string): seq<nat> {
    if s == "" then []
    else
      var c := s[0] as int;
      (if c < 0x80 then [c]
       else if c < 0x800 then [0xC0 + c / 0x40, 0x80 + c % 0x40]
       else if c < 0x10000 then [0xE0 + c / 0x1000, 0x80 + c / 0x40 % 0x40, 0x80 + c % 0x40]
       else [0xF0 + c / 0x40000, 0x80 + c / 0x1000 % 0x40, 0x80 + c / 0x40 % 0x40, 0x80 + c % 0x40])
      + Utf8(s[1..])
  }

  /** Its UTF-16 form (section 2.1 of RFC 2781). */
  function Utf16(s: string): seq<nat> {
    if s == "" then []
    else
      var c := s[0] as int;
      (if c < 0x10000 then [c] else [0xD800 + (c - 0x10000) / 0x400, 0xDC00 + (c - 0x10000) % 0x400]) + Utf16(s[1..])
  }

  lemma {:induction false} LengthsOfForms(s: string)
    ensures |Utf8(s)| == Utf8Len(s) && |Utf16(s)| == Utf16Len(s)
  {
    if s != "" {
      LengthsOfForms(s[1..]);
    }
  }

  predicate Fits(s: string) {
    Utf8Len(s) <= MAX_PATH_BYTES && Utf16Len(s) <= MAX_PATH_UTF16_UNITS
  }

  predicate Skipped(c: string) {
    c == "" || c == "."
  }

  function Kept(parts: Path): Path {
    if parts == [] then []
    else if Skipped(parts[0]) then Kept(parts[1..])
    else [parts[0]] + Kept(parts[1..])
  }

  /** A component list that a vault path may hold. */
  predicate Canonical(n: Naming, p: Path) {
    && p != []
    && (forall c :: c in p ==> '/' !in c && !Skipped(c) && c != ".." && n.portable(c))
    && Fits(Join(p))
  }

  predicate BadStart(value: string) {
    value == "" || value[0] == '/' || "./" <= value || '\\' in value
  }

  /** Every segment is dropped or is a portable name. */
  predicate SegmentsOk(n: Naming, parts: Path) {
    forall c :: c in parts ==> Skipped(c) || (c != ".." && n.portable(c))
  }

  lemma {:induction false} KeptAppend(parts: Path, c: string)
    ensures Kept(parts + [c]) == Kept(parts) + (if Skipped(c) then [] else [c])
  {
    if parts == [] {
      assert parts + [c] == [c] && [c][1..] == [];
    } else {
      assert (parts + [c])[0] == parts[0] && (parts + [c])[1..] == parts[1..] + [c];
      KeptAppend(parts[1..], c);
    }
  }

  lemma {:induction false} KeptFrom(parts: Path, c: string)
    requires c in Kept(parts)
    ensures c in parts && !Skipped(c)
  {
    if c !in Kept(parts[1..]) {
      assert c == parts[0];
    } else {
      KeptFrom(parts[1..], c);
    }
  }

  lemma {:induction false} KeptNothing(parts: Path)
    ensures Kept(parts) == [] <==> forall c :: c in parts ==> Skipped(c)
  {
    if parts != [] {
      KeptNothing(parts[1..]);
      assert parts == [parts[0]] + parts[1..];
    }
  }

  /** An empty segment or a single dot, wherever it stands, makes no difference. */
  lemma {:induction false} KeptInsert(parts: Path, k: nat, c: string)
    requires k <= |parts| && Skipped(c)
    ensures Kept(parts[..k] + [c] + parts[k..]) == Kept(parts)
  {
    var longer := parts[..k] + [c] + parts[k..];
    if k == 0 {
      assert longer[0] == c && longer[1..] == parts;
    } else {
      assert longer[0] == parts[0] && longer[1..] == parts[1..][..k - 1] + [c] + parts[1..][k - 1..];
      KeptInsert(parts[1..], k - 1, c);
    }
  }

  /** What remains of acceptable segments is canonical. */
  lemma KeptCanonical(n: Naming, value: string)
    requires SegmentsOk(n, Split(value)) && Kept(Split(value)) != [] && Fits(Join(Kept(Split(value))))
    ensures Canonical(n, Kept(Split(value)))
  {
    SplitNoSlash(value);
    forall c | c in Kept(Split(value)) ensures '/' !in c && !Skipped(c) && c != ".." && n.portable(c) {
      KeptFrom(Split(value), c);
    }
  }

  /** `VaultPath::from_portable`: drops empty and `.` segments, rejects everything that is
      not portable. */
  method FromPortable(n: Naming, value: string) returns (r: Option<Path>)
    ensures r.Some? <==> Portable(n, value)
    ensures r.Some? ==> r.value == Kept(Split(value)) && Canonical(n, r.value)
    // Which texts are refused: empty, absolute, relative to the current directory, with a
    // backslash, with a parent or a name that is not portable, without a name, or too long.
    ensures r.None? <==>
              || value == "" || value[..1] == "/" || "./" <= value || '\\' in value
              || ".." in Split(value) || (exists c :: c in Split(value) && c != "" && c != "." && !n.portable(c))
              || (forall c :: c in Split(value) ==> c == "" || c == ".")
              || |Utf8(Join(Kept(Split(value))))| > 4096 || |Utf16(Join(Kept(Split(value))))| > 4096
  {
    r := ParseSegments(n, value);
    LengthsOfForms(Join(Kept(Split(value))));
    KeptNothing(Split(value));
  }

  ghost predicate Portable(n: Naming, value: string) {
    && !BadStart(value) && SegmentsOk(n, Split(value))
    && Kept(Split(value)) != [] && Fits(Join(Kept(Split(value))))
  }

  method ParseSegments(n: Naming, value: string) returns (r: Option<Path>)
    ensures r.Some? <==> Portable(n, value)
    ensures r.Some? ==> r.value == Kept(Split(value)) && Canonical(n, r.value)
  {
    if BadStart(value) {
      return None;
    }
    var parts := Split(value);
    var components: Path := [];
    var i := 0;
    while i < |parts|
      invariant 0 <= i <= |parts|
      invariant components == Kept(parts[..i]) && SegmentsOk(n, parts[..i])
    {
      var component := parts[i];
      assert component in parts && parts[..i + 1] == parts[..i] + [component];
      KeptAppend(parts[..i], component);
      if !Skipped(component) {
        if component == ".." || !n.portable(component) {
          return None;
        }
        components := components + [component];
      }
      i := i + 1;
    }
    assert parts[..i] == parts;
    if components == [] || !Fits(Join(components)) {
      return None;
    }
    KeptCanonical(n, value);
    return Some(components);
  }

  lemma {:induction false} KeptAll(p: Path)
    requires forall c :: c in p ==> !Skipped(c)
    ensures Kept(p) == p
  {
    if p != [] {
      assert p[0] in p && forall c :: c in p[1..] ==> c in p;
      KeptAll(p[1..]);
      assert p == [p[0]] + p[1..];
    }
  }

  lemma {:induction false} JoinChars(p: Path, x: char)
    requires x != '/' && forall c :: c in p ==> x !in c
    ensures x !in Join(p)
  {
    if |p| == 1 {
      assert p[0] in p;
    } else if |p| > 1 {
      assert p[0] in p && forall c :: c in p[1..] ==> c in p;
      JoinChars(p[1..], x);
    }
  }

  /** Parsing the text of a canonical path gives the path back, so `as_str` and
      `from_portable` are inverse on vault paths. */
  lemma CanonicalRoundTrip(n: Naming, p: Path)
    requires n.Lawful() && Canonical(n, p)
    ensures !BadStart(Join(p)) && Split(Join(p)) == p && Kept(Split(Join(p))) == p
  {
    SplitJoin(p);
    KeptAll(p);
    JoinChars(p, '\\');
    assert p[0] in p;
    var s := Join(p);
    assert p[0] <= s;
    assert s[0] == p[0][0];
  }

  // ----- Collision keys

  datatype PathClass = Content | ObsidianMetadata | Trash

  function ClassifyComponent(n: Naming, c: string): PathClass {
    if n.key(c) == ".obsidian" then ObsidianMetadata
    else if n.key(c) == ".trash" then Trash
    else Content
  }

  function Classify(n: Naming, p: Path): PathClass {
    if p == [] then Content else ClassifyComponent(n, p[0])
  }

  /** The key of every component, in order. */
  function Keys(n: Naming, p: Path): (r: Path)
    ensures |r| == |p| && forall i :: 0 <= i < |p| ==> r[i] == n.key(p[i])
  {
    seq(|p|, i requires 0 <= i < |p| => n.key(p[i]))
  }

  function CollisionKey(n: Naming, p: Path): string {
    Join(Keys(n, p))
  }

  /** No entry of the directory `d` differs from `name` while sharing its key. */
  ghost predicate NoCollision(n: Naming, root: Node, d: Path, name: string) {
    forall x {:trigger At(root, d + [x])} :: At(root, d + [x]) != Absent && n.key(x) == n.key(name) ==> x == name
  }

  /** No component of `p` collides with a sibling. */
  ghost predicate Clear(n: Naming, root: Node, p: Path) {
    forall i :: 0 <= i < |p| ==> NoCollision(n, root, p[..i], p[i])
  }

  /** No name in the tree has a key that contains a separator. The key function itself gives no
      such promise: NFKC maps the fullwidth solidus to `/`. */
  ghost predicate PlainKeys(n: Naming, root: Node) {
    forall p, c :: At(root, p) != Absent && c in p ==> '/' !in n.key(c)
  }

  /** Every directory holds names with pairwise distinct keys. */
  ghost predicate SiblingsDistinct(n: Naming, root: Node) {
    forall d, x, y :: At(root, d + [x]) != Absent && At(root, d + [y]) != Absent && n.key(x) == n.key(y) ==> x == y
  }
}
