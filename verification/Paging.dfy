// crates/myvault-app-service/src/lib.rs and crates/myvault-core/src/vault.rs: pages of the
// explorer and of the Trash. Both cut a window out of a freshly sorted listing, right after
// the cursor.

module Paging {
  import opened Wrappers
  import opened Order
  import opened Tree
  import opened Paths
  import opened Disk
  import opened Inventories

  datatype Page = Page(entries: seq<string>, nextAfter: Option<string>, hasMore: bool)

  const EXPLORER_MAX_DEPTH := 64
  const EXPLORER_MAX_SCAN := 5_000
  const EXPLORER_MAX_PAGE_SIZE := 200

  predicate AfterCursor(after: Option<string>, x: string) {
    after.None? || Below(after.value, x)
  }

  /** The entries behind the cursor, by plain selection. */
  function Behind(list: seq<string>, after: Option<string>): seq<string> {
    if list == [] then []
    else (if AfterCursor(after, list[0]) then [list[0]] else []) + Behind(list[1..], after)
  }

  /** The page a caller should see: the first `limit` entries behind the cursor. */
  function PageOf(list: seq<string>, after: Option<string>, limit: nat): Page {
    var rest := Behind(list, after);
    var entries := rest[..Min(limit, |rest|)];
    Page(entries, if entries == [] then None else Some(entries[|entries| - 1]), |entries| < |rest|)
  }

  // ----- Selection is a suffix of a sorted listing

  lemma {:induction false} BehindAll(list: seq<string>, after: Option<string>)
    requires forall i :: 0 <= i < |list| ==> AfterCursor(after, list[i])
    ensures Behind(list, after) == list
  {
    if list != [] {
      BehindAll(list[1..], after);
      assert list == [list[0]] + list[1..];
    }
  }

  lemma {:induction false} BehindSuffix(list: seq<string>, after: Option<string>, k: nat)
    requires k <= |list|
    requires forall i :: 0 <= i < k ==> !AfterCursor(after, list[i])
    requires forall i :: k <= i < |list| ==> AfterCursor(after, list[i])
    ensures Behind(list, after) == list[k..]
  {
    if k == 0 {
      BehindAll(list, after);
      assert list[0..] == list;
    } else {
      BehindSuffix(list[1..], after, k - 1);
      assert list[1..][k - 1..] == list[k..];
    }
  }

  /** `partition_point`: a binary search for the first entry behind the cursor. */
  method PartitionPoint(list: seq<string>, cursor: string) returns (k: nat)
    requires Increasing(list)
    ensures k <= |list|
    ensures forall i :: 0 <= i < k ==> AtMost(list[i], cursor)
    ensures forall i :: k <= i < |list| ==> Below(cursor, list[i])
  {
    var lo, hi := 0, |list|;
    while lo < hi
      invariant 0 <= lo <= hi <= |list|
      invariant forall i :: 0 <= i < lo ==> AtMost(list[i], cursor)
      invariant forall i :: hi <= i < |list| ==> Below(cursor, list[i])
    {
      var mid := (lo + hi) / 2;
      if AtMost(list[mid], cursor) {
        forall i | lo <= i < mid ensures AtMost(list[i], cursor) {
          assert Below(list[i], list[mid]);
          if list[mid] != cursor { BelowTransitive(list[i], list[mid], cursor); }
        }
        lo := mid + 1;
      } else {
        BelowTotal(list[mid], cursor);
        forall i | mid < i < |list| ensures Below(cursor, list[i]) {
          BelowTransitive(cursor, list[mid], list[i]);
        }
        hi := mid;
      }
    }
    k := lo;
  }

  lemma NotBehind(a: string, b: string)
    ensures AtMost(a, b) ==> !Below(b, a)
  {
    if Below(b, a) {
      BelowIrreflexive(a);
      if a != b && Below(a, b) { BelowTransitive(a, b, a); }
    }
  }

  /** The window both listings cut out of the sorted entries. */
  method CutPage(list: seq<string>, after: Option<string>, limit: nat) returns (page: Page)
    requires Increasing(list)
    ensures page == PageOf(list, after, limit)
    ensures Full(page.entries, page.hasMore, limit)
  {
    var start := 0;
    if after.Some? {
      start := PartitionPoint(list, after.value);
      forall i | 0 <= i < start ensures !AfterCursor(after, list[i]) {
        NotBehind(list[i], after.value);
      }
    }
    var end := Min(|list|, start + limit);
    var entries := list[start..end];
    WindowIsPage(list, after, limit, start);
    page := Page(entries, if entries == [] then None else Some(entries[|entries| - 1]), end < |list|);
  }

  /** A page holds no more than it may, and less only when nothing is left. */
  ghost predicate Full<T>(entries: seq<T>, hasMore: bool, limit: nat) {
    |entries| <= limit && (hasMore ==> |entries| == limit)
  }

  lemma Window(list: seq<string>, start: nat, limit: nat)
    requires start <= |list|
    ensures var rest := list[start..];
            && list[start..Min(|list|, start + limit)] == rest[..Min(limit, |rest|)]
            && (Min(limit, |rest|) < |rest| <==> Min(|list|, start + limit) < |list|)
  {
  }

  lemma WindowIsPage(list: seq<string>, after: Option<string>, limit: nat, start: nat)
    requires start <= |list|
    requires forall i :: 0 <= i < start ==> !AfterCursor(after, list[i])
    requires forall i :: start <= i < |list| ==> AfterCursor(after, list[i])
    ensures var end := Min(|list|, start + limit);
            var entries := list[start..end];
            PageOf(list, after, limit) == Page(entries, if entries == [] then None else Some(entries[|entries| - 1]), end < |list|)
  {
    BehindSuffix(list, after, start);
    Window(list, start, limit);
  }

  // ----- The explorer

  datatype PageError = InvalidLimit | InvalidCursor | Unavailable(error: Error)

  function Texts(es: seq<InventoryEntry>): (r: seq<string>)
    ensures |r| == |es|
    ensures Ascending(es) ==> Increasing(r)
  {
    seq(|es|, i requires 0 <= i < |es| => Join(es[i].path))
  }

  /** `list_explorer` */
  method ListExplorer(n: Naming, objects: map<nat, FileObject>, markdown: string -> bool, root: Node, after: Option<string>, limit: nat)
    returns (r: Result<Page, PageError>, ghost listing: seq<InventoryEntry>)
    requires n.Lawful() && root.Dir? && LegalNames(root)
    ensures r.Ok? <==> && 1 <= limit <= EXPLORER_MAX_PAGE_SIZE
                       && (after.Some? ==> exists p :: Canonical(n, p) && Join(p) == after.value)
                       && Acceptable(n, InventoryLimits(EXPLORER_MAX_DEPTH, EXPLORER_MAX_SCAN), Shown(n, root, []), [], 0)
                       && KeysDistinct(n, Shown(n, root, []))
    ensures !(1 <= limit <= EXPLORER_MAX_PAGE_SIZE) ==> r == Err(InvalidLimit)
    ensures 1 <= limit <= EXPLORER_MAX_PAGE_SIZE && after.Some? && !(exists p :: Canonical(n, p) && Join(p) == after.value) ==> r == Err(InvalidCursor)
    ensures r.Ok? ==> && Lists(objects, markdown, Shown(n, root, []), [], listing) && Ascending(listing)
                      && r.value == PageOf(Texts(listing), after, limit) && Full(r.value.entries, r.value.hasMore, limit)
  {
    listing := [];
    if !(1 <= limit <= EXPLORER_MAX_PAGE_SIZE) {
      return Err(InvalidLimit), listing;
    }
    if after.Some? {
      var path := FromPortable(n, after.value);
      if exists p :: Canonical(n, p) && Join(p) == after.value {
        var p :| Canonical(n, p) && Join(p) == after.value;
        CanonicalParses(n, p);
      }
      if path.None? || Join(path.value) != after.value {
        return Err(InvalidCursor), listing;
      }
    }
    var inventory := Inventory(n, objects, markdown, root, InventoryLimits(EXPLORER_MAX_DEPTH, EXPLORER_MAX_SCAN));
    if inventory.Err? {
      return Err(Unavailable(inventory.error)), listing;
    }
    listing := inventory.value;
    var page := CutPage(Texts(inventory.value), after, limit);
    return Ok(page), listing;
  }

  lemma CanonicalParses(n: Naming, p: Path)
    requires n.Lawful() && Canonical(n, p)
    ensures !BadStart(Join(p)) && Kept(Split(Join(p))) == p && Fits(Join(p))
    ensures SegmentsOk(n, Split(Join(p)))
  {
    CanonicalRoundTrip(n, p);
  }

  // ----- Paging through everything

  /** Two listings of one vault show the same texts. */
  lemma SameTexts(objects: map<nat, FileObject>, markdown: string -> bool, node: Node, a: seq<InventoryEntry>, b: seq<InventoryEntry>)
    requires Lists(objects, markdown, node, [], a) && Lists(objects, markdown, node, [], b) && Ascending(a) && Ascending(b)
    ensures Texts(a) == Texts(b)
  {
    TextsOf(a);
    TextsOf(b);
    assert forall e :: e in a <==> e in b;
    IncreasingUnique(Texts(a), Texts(b));
  }

  lemma TextsOf(es: seq<InventoryEntry>)
    ensures forall x :: x in Texts(es) <==> exists e :: e in es && Join(e.path) == x
  {
    forall x ensures x in Texts(es) ==> exists e :: e in es && Join(e.path) == x {
      if x in Texts(es) {
        var i :| 0 <= i < |es| && Texts(es)[i] == x;
        assert es[i] in es;
      }
    }
    forall e | e in es ensures Join(e.path) in Texts(es) {
      var i :| 0 <= i < |es| && es[i] == e;
      assert Texts(es)[i] == Join(e.path);
    }
  }

  /** Every cursor the explorer hands out is one it accepts. */
  lemma CursorAccepted(n: Naming, objects: map<nat, FileObject>, markdown: string -> bool, limits: InventoryLimits, node: Node,
                       listing: seq<InventoryEntry>, cursor: string)
    requires AllOk(n, limits, node, []) && Lists(objects, markdown, node, [], listing) && cursor in Texts(listing)
    ensures exists p :: Canonical(n, p) && Join(p) == cursor
  {
    ListedPaths(n, objects, markdown, limits, node, listing);
    var i :| 0 <= i < |listing| && Texts(listing)[i] == cursor;
    assert listing[i] in listing;
  }

  /** The explorer can list this vault. */
  ghost predicate Listed(n: Naming, root: Node) {
    && Acceptable(n, InventoryLimits(EXPLORER_MAX_DEPTH, EXPLORER_MAX_SCAN), Shown(n, root, []), [], 0)
    && KeysDistinct(n, Shown(n, root, []))
  }

  /** Asking for the next page, each time with the cursor of the page before, until no more is
      promised: on a vault that does not change this ends, no call fails if the first does not,
      and the pages together are the whole listing. */
  method BrowseExplorer(n: Naming, objects: map<nat, FileObject>, markdown: string -> bool, root: Node, limit: nat)
    returns (r: Result<seq<string>, PageError>, ghost listing: seq<InventoryEntry>)
    requires n.Lawful() && root.Dir? && LegalNames(root)
    ensures r.Ok? <==> 1 <= limit <= EXPLORER_MAX_PAGE_SIZE && Listed(n, root)
    ensures r.Ok? ==> Lists(objects, markdown, Shown(n, root, []), [], listing) && Ascending(listing) && r.value == Texts(listing)
  {
    var page;
    page, listing := ListExplorer(n, objects, markdown, root, None, limit);
    if page.Err? { return Err(page.error), listing; }
    ghost var list := Texts(listing);
    BehindAll(list, None);
    NextPage(list, 0, None, limit);
    assert list[..0] + page.value.entries == page.value.entries;
    var all := page.value.entries;
    while page.value.hasMore
      invariant page.Ok? && Advanced(list, all, page.value)
      decreases |list| - |all|
    {
      var after := page.value.nextAfter;
      page := NextExplorerPage(n, objects, markdown, root, after, limit, listing, |all|);
      all := all + page.value.entries;
    }
    return Ok(all), listing;
  }

  /** The page after the first `k` entries of a vault that did not change. */
  method NextExplorerPage(n: Naming, objects: map<nat, FileObject>, markdown: string -> bool, root: Node, after: Option<string>, limit: nat,
                          ghost listing: seq<InventoryEntry>, ghost k: nat) returns (r: Result<Page, PageError>)
    requires n.Lawful() && root.Dir? && LegalNames(root) && Listed(n, root) && 1 <= limit <= EXPLORER_MAX_PAGE_SIZE
    requires Lists(objects, markdown, Shown(n, root, []), [], listing) && Ascending(listing) && k <= |listing|
    requires after.Some? && after.value in Texts(listing) && Behind(Texts(listing), after) == Texts(listing)[k..]
    ensures r.Ok? && Advanced(Texts(listing), Texts(listing)[..k] + r.value.entries, r.value) && (r.value.hasMore ==> r.value.entries != [])
  {
    CursorAccepted(n, objects, markdown, InventoryLimits(EXPLORER_MAX_DEPTH, EXPLORER_MAX_SCAN), Shown(n, root, []), listing, after.value);
    ghost var again;
    r, again := ListExplorer(n, objects, markdown, root, after, limit);
    SameTexts(objects, markdown, Shown(n, root, []), listing, again);
    NextPage(Texts(listing), k, after, limit);
  }

  /** What a client has after some pages: a first part of the list, and a page that tells
      whether there is more and where it goes on. */
  ghost predicate Advanced(list: seq<string>, all: seq<string>, page: Page) {
    && |all| <= |list| && all == list[..|all|] && (page.hasMore <==> |all| < |list|)
    && (page.hasMore ==> page.nextAfter.Some? && page.nextAfter.value in list && Behind(list, page.nextAfter) == list[|all|..])
  }

  /** A page cut right behind the first `k` entries. */
  lemma NextPage(list: seq<string>, k: nat, after: Option<string>, limit: nat)
    requires Increasing(list) && k <= |list| && limit >= 1 && Behind(list, after) == list[k..]
    ensures var page := PageOf(list, after, limit);
            Advanced(list, list[..k] + page.entries, page) && (page.hasMore ==> page.entries != [])
  {
    var page := PageOf(list, after, limit);
    var next := k + |page.entries|;
    assert page.entries == list[k..next];
    assert list[..k] + page.entries == list[..next];
    if page.hasMore {
      assert page.entries[|page.entries| - 1] == list[next - 1];
      BehindLast(list, next);
    }
  }

  lemma BehindLast(list: seq<string>, k: nat)
    requires Increasing(list) && 0 < k <= |list|
    ensures Behind(list, Some(list[k - 1])) == list[k..]
  {
    var cursor := list[k - 1];
    forall i | 0 <= i < k ensures !AfterCursor(Some(cursor), list[i]) {
      if i < k - 1 { assert Below(list[i], cursor); }
      NotBehind(list[i], cursor);
    }
    BehindSuffix(list, Some(cursor), k);
  }

  // ----- Paging while the listing changes

  function Cursor(pages: seq<Page>, k: nat): Option<string>
    requires k <= |pages|
  {
    if k == 0 then None else pages[k - 1].nextAfter
  }

  /** Page `k` was cut from the listing of that moment with the cursor of the page before,
      and all pages but possibly the last promised more. */
  ghost predicate PageRun(lists: seq<seq<string>>, limits: seq<nat>, pages: seq<Page>) {
    && |lists| == |limits| == |pages|
    && (forall k :: 0 <= k < |pages| ==> Increasing(lists[k]) && limits[k] >= 1)
    && (forall k :: 0 <= k < |pages| ==> pages[k] == PageOf(lists[k], Cursor(pages, k), limits[k]))
    && (forall k :: 0 <= k < |pages| - 1 ==> pages[k].hasMore)
  }

  function Returned(pages: seq<Page>, k: nat): seq<string>
    requires k <= |pages|
  {
    if k == 0 then [] else Returned(pages, k - 1) + pages[k - 1].entries
  }

  lemma {:induction false} BehindIn(list: seq<string>, after: Option<string>, x: string)
    ensures x in Behind(list, after) <==> x in list && AfterCursor(after, x)
  {
    if list != [] {
      BehindIn(list[1..], after, x);
      assert list == [list[0]] + list[1..];
    }
  }

  lemma {:induction false} BehindIncreasing(list: seq<string>, after: Option<string>)
    requires Increasing(list)
    ensures Increasing(Behind(list, after))
  {
    if list != [] {
      var tail := list[1..];
      BehindIncreasing(tail, after);
      var rest := Behind(tail, after);
      forall i | 0 <= i < |rest| ensures Below(list[0], rest[i]) {
        assert rest[i] in rest;
        BehindIn(tail, after, rest[i]);
        var j :| 0 <= j < |tail| && tail[j] == rest[i];
        assert list[j + 1] == rest[i];
      }
    }
  }

  /** The entries of a page lie behind the cursor and go up to the next cursor, and no entry
      of the listing in that range is missing. */
  ghost predicate Spans(list: seq<string>, after: Option<string>, page: Page) {
    && Increasing(page.entries) && (page.hasMore ==> page.nextAfter.Some?)
    && (forall x :: x in page.entries ==> x in list && AfterCursor(after, x) && page.nextAfter.Some? && AtMost(x, page.nextAfter.value))
    && (page.nextAfter.Some? ==> page.nextAfter.value in page.entries)
    && (forall x :: x in list && AfterCursor(after, x) && !(page.hasMore && AfterCursor(page.nextAfter, x)) ==> x in page.entries)
  }

  lemma PageSpans(list: seq<string>, after: Option<string>, limit: nat)
    requires Increasing(list) && limit >= 1
    ensures Spans(list, after, PageOf(list, after, limit))
  {
    var rest := Behind(list, after);
    BehindIncreasing(list, after);
    forall x ensures x in rest <==> x in list && AfterCursor(after, x) {
      BehindIn(list, after, x);
    }
    RestSpans(list, after, rest, Min(limit, |rest|));
  }

  lemma RestSpans(list: seq<string>, after: Option<string>, rest: seq<string>, cut: nat)
    requires Increasing(rest) && cut <= |rest| && (cut == 0 ==> rest == [])
    requires forall x :: x in rest <==> x in list && AfterCursor(after, x)
    ensures Spans(list, after, Page(rest[..cut], if rest[..cut] == [] then None else Some(rest[..cut][cut - 1]), cut < |rest|))
  {
    CutSpans(rest, cut);
    forall x | x in rest[..cut] ensures x in rest {
    }
    if cut == |rest| {
      assert rest[..cut] == rest;
    }
  }

  /** Every entry behind a cut is behind its last entry, and every other one up to it. */
  lemma CutSpans(rest: seq<string>, cut: nat)
    requires Increasing(rest) && cut <= |rest|
    ensures Increasing(rest[..cut])
    ensures cut > 0 ==> rest[..cut][cut - 1] == rest[cut - 1] && forall x :: x in rest[..cut] ==> AtMost(x, rest[cut - 1])
    ensures cut > 0 ==> forall x :: x in rest ==> x in rest[..cut] || Below(rest[cut - 1], x)
  {
    forall x | x in rest && cut > 0 ensures x in rest[..cut] || Below(rest[cut - 1], x) {
      var i :| 0 <= i < |rest| && rest[i] == x;
      if i < cut { assert rest[..cut][i] == x; }
    }
  }

  /** What the run lemmas need of a run. */
  ghost predicate SpanRun(lists: seq<seq<string>>, pages: seq<Page>) {
    && |lists| == |pages|
    && (forall k :: 0 <= k < |pages| ==> Spans(lists[k], Cursor(pages, k), pages[k]))
    && (forall k :: 0 <= k < |pages| - 1 ==> pages[k].hasMore)
  }

  lemma RunSpans(lists: seq<seq<string>>, limits: seq<nat>, pages: seq<Page>)
    requires PageRun(lists, limits, pages)
    ensures SpanRun(lists, pages)
  {
    forall k | 0 <= k < |pages| ensures Spans(lists[k], Cursor(pages, k), pages[k]) {
      PageSpans(lists[k], Cursor(pages, k), limits[k]);
    }
  }

  /** Cursors strictly increase, whatever happens to the vault between pages. */
  lemma CursorsIncrease(lists: seq<seq<string>>, limits: seq<nat>, pages: seq<Page>, k: nat)
    requires PageRun(lists, limits, pages) && 0 < k < |pages| && pages[k].nextAfter.Some?
    ensures Cursor(pages, k).Some? && Below(Cursor(pages, k).value, pages[k].nextAfter.value)
  {
    RunSpans(lists, limits, pages);
    NextCursor(lists, pages, k);
  }

  lemma NextCursor(lists: seq<seq<string>>, pages: seq<Page>, k: nat)
    requires SpanRun(lists, pages) && 0 < k < |pages|
    ensures Cursor(pages, k).Some?
    ensures pages[k].nextAfter.Some? ==> Below(Cursor(pages, k).value, pages[k].nextAfter.value)
  {
    assert Spans(lists[k - 1], Cursor(pages, k - 1), pages[k - 1]) && Spans(lists[k], Cursor(pages, k), pages[k]);
  }

  /** All that is returned up to page `k` is in increasing order and not behind the cursor. */
  lemma {:induction false} ReturnedIncreasing(lists: seq<seq<string>>, pages: seq<Page>, k: nat)
    requires SpanRun(lists, pages) && k <= |pages|
    ensures Increasing(Returned(pages, k))
    ensures 0 < k < |pages| ==> Cursor(pages, k).Some? && UpTo(Returned(pages, k), Cursor(pages, k).value)
  {
    if k > 0 {
      ReturnedIncreasing(lists, pages, k - 1);
      assert Spans(lists[k - 1], Cursor(pages, k - 1), pages[k - 1]);
      if k == 1 {
        assert Returned(pages, 1) == pages[0].entries;
      } else {
        NextCursor(lists, pages, k - 1);
        AppendIncreasing(Returned(pages, k - 1), pages[k - 1].entries, Cursor(pages, k - 1).value);
        if k < |pages| {
          UpToLater(Returned(pages, k - 1), Cursor(pages, k - 1).value, Cursor(pages, k).value);
        }
      }
    }
  }

  ghost predicate UpTo(s: seq<string>, cursor: string) {
    forall x :: x in s ==> AtMost(x, cursor)
  }

  lemma UpToLater(s: seq<string>, a: string, b: string)
    requires UpTo(s, a) && Below(a, b)
    ensures UpTo(s, b)
  {
    forall x | x in s ensures AtMost(x, b) {
      if x != a { BelowTransitive(x, a, b); }
    }
  }

  lemma AppendIncreasing(a: seq<string>, b: seq<string>, cursor: string)
    requires Increasing(a) && Increasing(b) && UpTo(a, cursor) && forall x :: x in b ==> Below(cursor, x)
    ensures Increasing(a + b)
  {
    forall i, j | 0 <= i < |a| <= j < |a + b| ensures Below((a + b)[i], (a + b)[j]) {
      assert a[i] in a && b[j - |a|] in b;
      if a[i] != cursor {
        BelowTransitive(a[i], cursor, b[j - |a|]);
      }
    }
  }

  lemma OnPageOrAhead(list: seq<string>, after: Option<string>, page: Page, x: string)
    requires Spans(list, after, page) && x in list && AfterCursor(after, x)
    ensures x in page.entries || (page.hasMore && AfterCursor(page.nextAfter, x))
  {
  }

  /** The page returns `x` or leaves it ahead. */
  ghost predicate Passes(page: Page, x: string) {
    x in page.entries || (page.hasMore && AfterCursor(page.nextAfter, x))
  }

  /** An entry that is there at every call is returned by one of the pages seen so far, or is
      still ahead of the cursor. */
  lemma {:induction false} StableIsReturnedOrAhead(pages: seq<Page>, x: string, k: nat)
    requires k <= |pages| && forall i :: 0 <= i < |pages| && AfterCursor(Cursor(pages, i), x) ==> Passes(pages[i], x)
    ensures x in Returned(pages, k) || (AfterCursor(Cursor(pages, k), x) && (k == 0 || pages[k - 1].hasMore))
  {
    if k > 0 {
      StableIsReturnedOrAhead(pages, x, k - 1);
    }
  }

  /** Over a whole paging every entry that is there at every call is returned, and nothing is
      returned twice. */
  lemma StableReturnedOnce(lists: seq<seq<string>>, limits: seq<nat>, pages: seq<Page>, x: string)
    requires PageRun(lists, limits, pages) && pages != [] && !pages[|pages| - 1].hasMore
    requires forall i :: 0 <= i < |lists| ==> x in lists[i]
    ensures x in Returned(pages, |pages|)
    ensures Increasing(Returned(pages, |pages|)) && multiset(Returned(pages, |pages|))[x] == 1
  {
    RunSpans(lists, limits, pages);
    forall i | 0 <= i < |pages| && AfterCursor(Cursor(pages, i), x) ensures Passes(pages[i], x) {
      OnPageOrAhead(lists[i], Cursor(pages, i), pages[i], x);
    }
    StableIsReturnedOrAhead(pages, x, |pages|);
    ReturnedIncreasing(lists, pages, |pages|);
    OnceIfIncreasing(Returned(pages, |pages|), x);
  }

  lemma {:induction false} OnceIfIncreasing(s: seq<string>, x: string)
    requires Increasing(s)
    ensures multiset(s)[x] == if x in s then 1 else 0
  {
    if s != [] {
      OnceIfIncreasing(s[1..], x);
      assert s == [s[0]] + s[1..];
      if x in s[1..] { IncreasingTail(s, x); }
    }
  }
}
