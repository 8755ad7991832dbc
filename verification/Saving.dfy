// crates/myvault-app-service/src/lib.rs: saving a note. Many callers run the steps of
// `save_note` at once, sharing the session lock for reading, while other calls may edit
// files, and activation or closing waits for the write lock.

module Saving {
  import opened Wrappers
  import opened Tree
  import opened Disk

  datatype Note = Note(vault: nat, path: Path)

  datatype Session = Session(id: nat, vault: nat)

  datatype Request = Request(session: nat, path: Path, text: Bytes, expected: FileRevision)

  datatype Phase =
    | Waiting
    | Entered(note: Note)
    | HasRead(note: Note, bytes: Bytes)
    | Snapshotted(note: Note, bytes: Bytes)
    | Saved
    | OutcomeUnknown
    | Refused

  datatype Caller = Caller(request: Request, phase: Phase) {
    /** The caller holds the session lock for reading. */
    predicate Inside() {
      phase.Entered? || phase.HasRead? || phase.Snapshotted?
    }
  }

  /** What changed a note: a save that was published, or anything else. `reported` tells
      whether the save was answered with success. */
  datatype Event =
    | Published(note: Note, expected: FileRevision, before: Bytes, after: Bytes, reported: bool)
    | Edited(note: Note, contents: Option<Bytes>)

  datatype World = World(session: Option<Session>, files: map<Note, Bytes>, snapshots: set<(Note, Bytes)>,
                         callers: map<nat, Caller>, log: seq<Event>)

  type Revision = Bytes -> FileRevision

  // ----- Steps

  ghost predicate Arrive(s: World, t: World, c: nat, request: Request) {
    c !in s.callers && t == s.(callers := s.callers[c := Caller(request, Waiting)])
  }

  function Moved(s: World, c: nat, phase: Phase): World
    requires c in s.callers
  {
    s.(callers := s.callers[c := s.callers[c].(phase := phase)])
  }

  /** Takes the session lock and checks that the session is still the requested one. */
  ghost predicate Enter(s: World, t: World, c: nat) {
    && c in s.callers && s.callers[c].phase.Waiting?
    && s.session.Some? && s.session.value.id == s.callers[c].request.session
    && t == Moved(s, c, Entered(Note(s.session.value.vault, s.callers[c].request.path)))
  }

  /** Reads the note and compares its revision. */
  ghost predicate Read(rev: Revision, s: World, t: World, c: nat) {
    && c in s.callers && s.callers[c].phase.Entered?
    && var note := s.callers[c].phase.note;
    && note in s.files && rev(s.files[note]) == s.callers[c].request.expected
    && t == Moved(s, c, HasRead(note, s.files[note]))
  }

  /** Publishes the bytes that were read to the snapshot store. */
  ghost predicate Snapshot(s: World, t: World, c: nat) {
    && c in s.callers && s.callers[c].phase.HasRead?
    && var p := s.callers[c].phase;
    && t == Moved(s, c, Snapshotted(p.note, p.bytes)).(snapshots := s.snapshots + {(p.note, p.bytes)})
  }

  /** The rename of compare-and-replace: it happens under the mutation lock, right after the
      second comparison. A failed sync or check afterwards hides the success. */
  ghost predicate Publish(rev: Revision, s: World, t: World, c: nat, reported: bool) {
    && c in s.callers && s.callers[c].phase.Snapshotted?
    && var note, request := s.callers[c].phase.note, s.callers[c].request;
    && note in s.files && rev(s.files[note]) == request.expected
    && t == Moved(s, c, if reported then Saved else OutcomeUnknown).(
              files := s.files[note := request.text],
              log := s.log + [Published(note, request.expected, s.files[note], request.text, reported)])
  }

  /** A call that gives up or is refused before publication, at any point. */
  ghost predicate Refuse(s: World, t: World, c: nat) {
    c in s.callers && (s.callers[c].phase.Waiting? || s.callers[c].Inside()) && t == Moved(s, c, Refused)
  }

  /** Any other change of one note. */
  ghost predicate Edit(s: World, t: World, note: Note, contents: Option<Bytes>) {
    t == s.(files := if contents.Some? then s.files[note := contents.value] else s.files - {note}, log := s.log + [Edited(note, contents)])
  }

  /** Activation and closing need the write lock. */
  ghost predicate Switch(s: World, t: World, session: Option<Session>) {
    (forall c :: c in s.callers ==> !s.callers[c].Inside()) && t == s.(session := session)
  }

  ghost predicate Step(rev: Revision, s: World, t: World) {
    || (exists c, request :: Arrive(s, t, c, request))
    || (exists c :: Enter(s, t, c) || Read(rev, s, t, c) || Snapshot(s, t, c) || Refuse(s, t, c))
    || (exists c, reported :: Publish(rev, s, t, c, reported))
    || (exists note, contents :: Edit(s, t, note, contents))
    || (exists session :: Switch(s, t, session))
  }

  /** Nobody has called yet and nothing was logged. */
  ghost predicate Start(s: World) {
    s.callers == map[] && s.log == []
  }

  ghost predicate Run(rev: Revision, run: seq<World>) {
    && run != [] && Start(run[0])
    && forall i :: 0 <= i < |run| - 1 ==> Step(rev, run[i], run[i + 1])
  }

  // ----- What every step keeps

  /** The content of a note after the logged events. */
  function Content(files: map<Note, Bytes>, log: seq<Event>, note: Note): Option<Bytes> {
    if log == [] then (if note in files then Some(files[note]) else None)
    else
      var last := log[|log| - 1];
      if last.note != note then Content(files, log[..|log| - 1], note)
      else if last.Published? then Some(last.after)
      else last.contents
  }

  /** Event `k` replaced exactly the content that was there, whose revision it expected, and
      that content had been put into the snapshot store. */
  ghost predicate Sound(rev: Revision, files: map<Note, Bytes>, s: World, k: nat)
    requires k < |s.log|
  {
    var e := s.log[k];
    e.Published? ==>
      && Content(files, s.log[..k], e.note) == Some(e.before) && rev(e.before) == e.expected
      && (exists b :: (e.note, b) in s.snapshots && rev(b) == e.expected)
  }

  ghost predicate CallerOk(rev: Revision, s: World, c: Caller) {
    && (c.Inside() ==> s.session == Some(Session(c.request.session, c.phase.note.vault)) && c.phase.note.path == c.request.path)
    && (c.phase.HasRead? || c.phase.Snapshotted? ==> rev(c.phase.bytes) == c.request.expected)
    && (c.phase.Snapshotted? ==> (c.phase.note, c.phase.bytes) in s.snapshots)
  }

  ghost predicate Inv(rev: Revision, files: map<Note, Bytes>, s: World) {
    && (forall c :: c in s.callers ==> CallerOk(rev, s, s.callers[c]))
    && (forall note :: Content(files, s.log, note) == if note in s.files then Some(s.files[note]) else None)
    && (forall k :: 0 <= k < |s.log| ==> Sound(rev, files, s, k))
  }

  lemma LogGrows(rev: Revision, files: map<Note, Bytes>, s: World, t: World, e: Event)
    requires Inv(rev, files, s) && t.log == s.log + [e] && t.snapshots == s.snapshots
    requires e.Published? ==> e.note in s.files && e.before == s.files[e.note] && rev(e.before) == e.expected &&
                              exists b :: (e.note, b) in s.snapshots && rev(b) == e.expected
    requires t.files == if e.Published? then s.files[e.note := e.after]
                        else if e.contents.Some? then s.files[e.note := e.contents.value] else s.files - {e.note}
    ensures forall note :: Content(files, t.log, note) == if note in t.files then Some(t.files[note]) else None
    ensures forall k :: 0 <= k < |t.log| ==> Sound(rev, files, t, k)
  {
    assert t.log[..|s.log|] == s.log;
    forall k | 0 <= k < |t.log| ensures Sound(rev, files, t, k) {
      if k < |s.log| {
        assert Sound(rev, files, s, k);
        assert t.log[..k] == s.log[..k];
      }
    }
  }

  /** Every step leaves every caller in order. */
  lemma CallersStay(rev: Revision, s: World, t: World)
    requires (forall c :: c in s.callers ==> CallerOk(rev, s, s.callers[c])) && Step(rev, s, t)
    ensures forall c :: c in t.callers ==> CallerOk(rev, t, t.callers[c])
    ensures s.snapshots <= t.snapshots
  {
    if c, request :| Arrive(s, t, c, request) {
      OneCallerMoves(rev, s, t, c);
    } else if c :| Enter(s, t, c) || Read(rev, s, t, c) || Refuse(s, t, c) {
      OneCallerMoves(rev, s, t, c);
    } else if c :| Snapshot(s, t, c) {
      OneCallerMoves(rev, s, t, c);
    } else if c, reported :| Publish(rev, s, t, c, reported) {
      OneCallerMoves(rev, s, t, c);
    } else if note, contents :| Edit(s, t, note, contents) {
      assert t.callers == s.callers && t.session == s.session && t.snapshots == s.snapshots;
    }
  }

  lemma OneCallerMoves(rev: Revision, s: World, t: World, c: nat)
    requires (forall x :: x in s.callers ==> CallerOk(rev, s, s.callers[x])) && s.session == t.session && s.snapshots <= t.snapshots
    requires c in t.callers && t.callers == s.callers[c := t.callers[c]] && CallerOk(rev, t, t.callers[c])
    ensures forall x :: x in t.callers ==> CallerOk(rev, t, t.callers[x])
  {
    forall x | x in t.callers ensures CallerOk(rev, t, t.callers[x]) {
      assert x != c ==> CallerOk(rev, s, s.callers[x]);
    }
  }

  lemma StepKeeps(rev: Revision, files: map<Note, Bytes>, s: World, t: World)
    requires Inv(rev, files, s) && Step(rev, s, t)
    ensures Inv(rev, files, t)
  {
    CallersStay(rev, s, t);
    if c, reported :| Publish(rev, s, t, c, reported) {
      var note, request := s.callers[c].phase.note, s.callers[c].request;
      assert CallerOk(rev, s, s.callers[c]);
      LogGrows(rev, files, s, t, Published(note, request.expected, s.files[note], request.text, reported));
    } else if note, contents :| Edit(s, t, note, contents) {
      LogGrows(rev, files, s, t, Edited(note, contents));
    } else {
      LogStays(rev, files, s, t);
    }
  }

  lemma LogStays(rev: Revision, files: map<Note, Bytes>, s: World, t: World)
    requires Inv(rev, files, s) && t.log == s.log && t.files == s.files && s.snapshots <= t.snapshots
    ensures forall note :: Content(files, t.log, note) == if note in t.files then Some(t.files[note]) else None
    ensures forall k :: 0 <= k < |t.log| ==> Sound(rev, files, t, k)
  {
    forall k | 0 <= k < |t.log| ensures Sound(rev, files, t, k) {
      assert Sound(rev, files, s, k);
    }
  }

  lemma {:induction false} RunKeeps(rev: Revision, run: seq<World>, k: nat)
    requires Run(rev, run) && k < |run|
    ensures Inv(rev, run[0].files, run[k])
  {
    if k > 0 {
      RunKeeps(rev, run, k - 1);
      StepKeeps(rev, run[0].files, run[k - 1], run[k]);
    }
  }

  // ----- What the saves promise

  /** With injective revisions every byte string a save ever overwrote is in the snapshot
      store, in every interleaving. */
  lemma OverwrittenIsSnapshotted(rev: Revision, run: seq<World>, k: nat, i: nat)
    requires Run(rev, run) && k < |run| && i < |run[k].log| && run[k].log[i].Published?
    requires forall a, b :: rev(a) == rev(b) ==> a == b
    ensures (run[k].log[i].note, run[k].log[i].before) in run[k].snapshots
  {
    RunKeeps(rev, run, k);
    assert Sound(rev, run[0].files, run[k], i);
  }

  /** No event in `log[i..k]` is about `note`. */
  ghost predicate Quiet(log: seq<Event>, note: Note, i: nat, k: nat)
    requires k <= |log|
  {
    forall j :: i <= j < k ==> log[j].note != note
  }

  lemma {:induction false} QuietContent(files: map<Note, Bytes>, log: seq<Event>, note: Note, i: nat, k: nat)
    requires i <= k <= |log| && Quiet(log, note, i, k)
    ensures Content(files, log[..k], note) == Content(files, log[..i], note)
  {
    if i < k {
      assert log[..k][..k - 1] == log[..k - 1];
      QuietContent(files, log, note, i, k - 1);
    }
  }

  /** The published saves of a note form one chain: with nothing else in between, each one
      expected, and replaced, exactly what the previous one wrote. */
  lemma PublicationsChain(rev: Revision, run: seq<World>, k: nat, i: nat, j: nat)
    requires Run(rev, run) && k < |run|
    requires var log := run[k].log;
             && i < j < |log| && log[i].Published? && log[j].Published? && log[i].note == log[j].note
             && Quiet(log, log[i].note, i + 1, j)
    ensures run[k].log[j].before == run[k].log[i].after && run[k].log[j].expected == rev(run[k].log[i].after)
  {
    var log, note := run[k].log, run[k].log[i].note;
    RunKeeps(rev, run, k);
    assert Sound(rev, run[0].files, run[k], j);
    QuietContent(run[0].files, log, note, i + 1, j);
    assert log[..i + 1][..i] == log[..i];
  }

  /** What an event leaves in its note. */
  function Left(e: Event): Option<Bytes> {
    if e.Published? then Some(e.after) else e.contents
  }

  /** The last event on the note in `log[i..j]` left content of revision `r`. */
  ghost predicate LastLeaves(rev: Revision, log: seq<Event>, note: Note, i: nat, j: nat, r: FileRevision)
    requires j <= |log|
  {
    exists m :: i <= m < j && log[m].note == note && Quiet(log, note, m + 1, j) && Left(log[m]).Some? && rev(Left(log[m]).value) == r
  }

  lemma LastOnNote(log: seq<Event>, note: Note, i: nat, j: nat) returns (m: nat)
    requires i <= j <= |log| && !Quiet(log, note, i, j)
    ensures i <= m < j && log[m].note == note && Quiet(log, note, m + 1, j)
  {
    m := j - 1;
    while log[m].note != note
      invariant i <= m < j && Quiet(log, note, m + 1, j)
      decreases m
    {
      m := m - 1;
    }
  }

  lemma LeftIsContent(files: map<Note, Bytes>, log: seq<Event>, note: Note, m: nat, j: nat)
    requires m < j <= |log| && log[m].note == note && Quiet(log, note, m + 1, j)
    ensures Content(files, log[..j], note) == Left(log[m])
  {
    QuietContent(files, log, note, m + 1, j);
    assert log[..m + 1][..m] == log[..m];
  }

  /** Exactly when one published save expects what an earlier one wrote, whatever happened in
      between: nothing did, or the last thing that did left content of that revision. */
  lemma ChainExactly(rev: Revision, run: seq<World>, k: nat, i: nat, j: nat)
    requires Run(rev, run) && k < |run|
    requires var log := run[k].log;
             i < j < |log| && log[i].Published? && log[j].Published? && log[i].note == log[j].note
    ensures var log := run[k].log;
            log[j].expected == rev(log[i].after) <==>
            Quiet(log, log[i].note, i + 1, j) || LastLeaves(rev, log, log[i].note, i + 1, j, rev(log[i].after))
  {
    var log, note := run[k].log, run[k].log[i].note;
    RunKeeps(rev, run, k);
    assert Sound(rev, run[0].files, run[k], j);
    if Quiet(log, note, i + 1, j) {
      LeftIsContent(run[0].files, log, note, i, j);
    } else {
      var m := LastOnNote(log, note, i + 1, j);
      LeftIsContent(run[0].files, log, note, m, j);
      assert forall n :: i + 1 <= n < j && log[n].note == note && Quiet(log, note, n + 1, j) ==> n == m;
    }
  }

  /** A change of the note that no caller was told about as a successful save. */
  predicate Hidden(e: Event) {
    e.Edited? || !e.reported
  }

  /** Two consecutive reported saves of a note chain exactly when nothing hidden happened to
      the note in between, or the last hidden change left the revision of the first save. */
  lemma ReportedSavesChain(rev: Revision, run: seq<World>, k: nat, i: nat, j: nat)
    requires Run(rev, run) && k < |run|
    requires var log := run[k].log;
             && i < j < |log| && log[i].Published? && log[i].reported && log[j].Published? && log[j].reported && log[i].note == log[j].note
             && (forall m :: i < m < j && log[m].note == log[i].note ==> Hidden(log[m]))
    ensures var log := run[k].log;
            log[j].expected == rev(log[i].after) <==>
            || (forall m :: i < m < j && Hidden(log[m]) ==> log[m].note != log[i].note)
            || LastLeaves(rev, log, log[i].note, i + 1, j, rev(log[i].after))
  {
    ChainExactly(rev, run, k, i, j);
  }

  /** Two saves that expected the same revision cannot both win unless, in between, the note
      was given that revision again. */
  lemma NoLostUpdate(rev: Revision, run: seq<World>, k: nat, i: nat, j: nat)
    requires Run(rev, run) && k < |run|
    requires var log := run[k].log;
             && i < j < |log| && log[i].Published? && log[j].Published? && log[i].note == log[j].note && log[i].expected == log[j].expected
    ensures exists m :: i <= m < j && run[k].log[m].note == run[k].log[i].note &&
                        Content(run[0].files, run[k].log[..m + 1], run[k].log[i].note).Some? &&
                        rev(Content(run[0].files, run[k].log[..m + 1], run[k].log[i].note).value) == run[k].log[j].expected
  {
    var log, note := run[k].log, run[k].log[i].note;
    RunKeeps(rev, run, k);
    assert Sound(rev, run[0].files, run[k], j);
    var m := LastOnNote(log, note, i, j);
    QuietContent(run[0].files, log, note, m + 1, j);
  }

  /** A save takes effect only in the session it was meant for. */
  lemma PublishedInItsSession(rev: Revision, run: seq<World>, k: nat, c: nat, reported: bool)
    requires Run(rev, run) && k + 1 < |run| && Publish(rev, run[k], run[k + 1], c, reported)
    ensures var r := run[k].callers[c].request;
            && run[k].session.Some? && run[k].session.value.id == r.session
            && run[k + 1].files == run[k].files[Note(run[k].session.value.vault, r.path) := r.text]
  {
    RunKeeps(rev, run, k);
    assert CallerOk(rev, run[k], run[k].callers[c]);
  }

  /** Reported saves alone need not chain: after a save whose success was hidden, the next
      reported save expects what the hidden one wrote. */
  lemma HiddenSaveBreaksChain(rev: Revision, before: Bytes, a: Bytes, b: Bytes, c: Bytes) returns (run: seq<World>)
    requires rev(a) != rev(b)
    ensures Run(rev, run)
    ensures var log := run[|run| - 1].log;
            && |log| == 3 && log[0].note == log[1].note == log[2].note
            && log[0].Published? && log[0].reported && log[2].Published? && log[2].reported
            && log[1].Published? && !log[1].reported
            && log[2].expected != rev(log[0].after)
  {
    var note := Note(0, ["n.md"]);
    run := [World(Some(Session(0, 0)), map[note := before], {}, map[], [])];
    run := SaveAll(rev, run, note, a, true);
    run := SaveAll(rev, run, note, b, false);
    run := SaveAll(rev, run, note, c, true);
  }

  /** One caller going through all the steps alone. */
  lemma SaveAll(rev: Revision, run: seq<World>, note: Note, text: Bytes, reported: bool) returns (longer: seq<World>)
    requires Run(rev, run) && var s := run[|run| - 1]; note in s.files && s.session.Some? && s.session.value.vault == note.vault
    ensures Run(rev, longer)
    ensures var s, t := run[|run| - 1], longer[|longer| - 1];
            && t.session == s.session && t.files == s.files[note := text]
            && t.log == s.log + [Published(note, rev(s.files[note]), s.files[note], text, reported)]
  {
    var s := run[|run| - 1];
    var c: nat := Bound(s.callers.Keys);
    var request := Request(s.session.value.id, note.path, text, rev(s.files[note]));
    var s1 := s.(callers := s.callers[c := Caller(request, Waiting)]);
    var s2 := Moved(s1, c, Entered(note));
    var s3 := Moved(s2, c, HasRead(note, s.files[note]));
    var s4 := Moved(s3, c, Snapshotted(note, s.files[note])).(snapshots := s.snapshots + {(note, s.files[note])});
    var s5 := Moved(s4, c, if reported then Saved else OutcomeUnknown).(
                files := s.files[note := text], log := s.log + [Published(note, rev(s.files[note]), s.files[note], text, reported)]);
    assert Arrive(s, s1, c, request) && Enter(s1, s2, c) && Read(rev, s2, s3, c) && Snapshot(s3, s4, c) && Publish(rev, s4, s5, c, reported);
    longer := Append(rev, run, s1);
    longer := Append(rev, longer, s2);
    longer := Append(rev, longer, s3);
    longer := Append(rev, longer, s4);
    longer := Append(rev, longer, s5);
  }

  lemma Append(rev: Revision, run: seq<World>, next: World) returns (longer: seq<World>)
    requires Run(rev, run) && Step(rev, run[|run| - 1], next)
    ensures Run(rev, longer) && longer[|longer| - 1] == next
  {
    longer := run + [next];
    assert forall i :: 0 <= i < |run| ==> longer[i] == run[i];
  }

  /** A number that no caller has. */
  ghost function Bound(used: set<nat>): (b: nat)
    ensures forall c :: c in used ==> c < b
  {
    if used == {} then 0
    else
      var c :| c in used;
      assert forall x :: x in used ==> x == c || x in used - {c};
      var b := Bound(used - {c});
      if c < b then b else c + 1
  }
}
