// Crash safety of a content move between two directories. A directory's entries survive a
// crash only as they were at its last full sync, so the model keeps, beside the live place
// of the file, whether each of the two directories durably holds it.

module Durability {
  import opened Wrappers
  import opened Tree
  import opened Disk
  import opened VaultCore

  datatype FilePlace = FilePlace(moved: bool, atSource: bool, atDestination: bool) {
    /** A crash at this point leaves the file in at least one directory. */
    predicate Survives() {
      atSource || atDestination
    }
  }

  const FULL := Synced(FullySynced)

  function Apply(f: FilePlace, e: MoveEvent): FilePlace {
    match e
    case Renamed => f.(moved := true)
    case SyncDir(Source, r) => if r == FULL then f.(atSource := !f.moved) else f
    case SyncDir(Destination, r) => if r == FULL then f.(atDestination := f.moved) else f
  }

  function Replay(f: FilePlace, events: seq<MoveEvent>): FilePlace
    decreases |events|
  {
    if events == [] then f else Replay(Apply(f, events[0]), events[1..])
  }

  /** The file survives a crash after any number of these steps. */
  ghost predicate Safe(f: FilePlace, events: seq<MoveEvent>) {
    forall k :: 0 <= k <= |events| ==> Replay(f, events[..k]).Survives()
  }

  /** The directory that is fully synced first. */
  function FirstFull(events: seq<MoveEvent>): Option<MoveSide> {
    if events == [] then None
    else if events[0].SyncDir? && events[0].result == FULL then Some(events[0].side)
    else FirstFull(events[1..])
  }

  lemma {:induction false} SafeStep(f: FilePlace, events: seq<MoveEvent>)
    requires events != []
    ensures Safe(f, events) <==> f.Survives() && Safe(Apply(f, events[0]), events[1..])
  {
    var g := Apply(f, events[0]);
    assert Replay(f, events[..0]) == f;
    forall k | 0 <= k < |events| ensures Replay(f, events[..k + 1]) == Replay(g, events[1..][..k]) {
      assert events[..k + 1][0] == events[0] && events[..k + 1][1..] == events[1..][..k];
    }
    if Safe(f, events) {
      forall k | 0 <= k <= |events[1..]| ensures Replay(g, events[1..][..k]).Survives() {
        assert Replay(f, events[..k + 1]).Survives();
      }
    }
    if f.Survives() && Safe(g, events[1..]) {
      forall k | 0 <= k <= |events| ensures Replay(f, events[..k]).Survives() {
        if k > 0 {
          assert Replay(g, events[1..][..k - 1]).Survives();
          assert k - 1 + 1 == k;
        }
      }
    }
  }

  /** Once the destination durably holds the moved file nothing can lose it. */
  lemma {:induction false} HeldAtDestination(f: FilePlace, events: seq<MoveEvent>)
    requires f.moved && f.atDestination
    ensures Safe(f, events)
    decreases |events|
  {
    if events == [] {
      assert events[..0] == events;
    } else {
      HeldAtDestination(Apply(f, events[0]), events[1..]);
      SafeStep(f, events);
    }
  }

  /** After the rename the file is safe at every crash point exactly when the source still
      held it durably and the source is not the first directory to be fully synced. */
  lemma {:induction false} SafeAfterRename(f: FilePlace, events: seq<MoveEvent>)
    requires f.moved && !f.atDestination
    ensures Safe(f, events) <==> f.atSource && FirstFull(events) != Some(Source)
    decreases |events|
  {
    if events == [] {
      assert forall k :: 0 <= k <= |events| ==> events[..k] == [];
      assert Replay(f, events[..0]) == f;
    } else {
      SafeStep(f, events);
      var g := Apply(f, events[0]);
      if events[0] == SyncDir(Destination, FULL) {
        HeldAtDestination(g, events[1..]);
      } else {
        SafeAfterRename(g, events[1..]);
      }
    }
  }

  lemma {:induction false} ReplayConcat(f: FilePlace, a: seq<MoveEvent>, b: seq<MoveEvent>)
    ensures Replay(f, a + b) == Replay(Replay(f, a), b)
    decreases |a|
  {
    if a == [] {
      assert a + b == b;
    } else {
      assert (a + b)[1..] == a[1..] + b;
      ReplayConcat(Apply(f, a[0]), a[1..], b);
    }
  }

  lemma ReplayRound(f: FilePlace, r: MoveSyncReport)
    requires r.source.Some?
    ensures Replay(f, RoundEvents(r)) ==
            Apply(Apply(f, SyncDir(Destination, r.destination)), SyncDir(Source, r.source.value))
  {
    var e := RoundEvents(r);
    assert e[1..] == [SyncDir(Source, r.source.value)] && e[1..][1..] == [];
    assert Replay(Apply(Apply(f, e[0]), e[1]), []) == Apply(Apply(f, e[0]), e[1]);
  }

  lemma ReplayClassified(log: MoveLog, atSource: bool)
    requires log.InOrder(false) && log.renamed
    ensures Replay(FilePlace(false, atSource, false), MaybeRound(log.classified) + [Renamed]) ==
            FilePlace(true, atSource || log.classified.value.source == Some(FULL), false)
  {
    var start := FilePlace(false, atSource, false);
    ReplayConcat(start, RoundEvents(log.classified.value), [Renamed]);
    ReplayRound(start, log.classified.value);
    var held := Replay(start, RoundEvents(log.classified.value));
    assert [Renamed][1..] == [];
    assert Replay(Apply(held, Renamed), []) == Apply(held, Renamed);
  }

  /** Every cross-directory move that renamed, whatever it returned or wherever it stopped, and
      from any starting durability of the source entry: from the rename on, the file is in a
      durable directory at every crash point exactly when the source held it durably before
      the rename and is not the first directory to be fully synced after it. */
  lemma MoveCrashSafe(log: MoveLog, atSource: bool)
    requires log.InOrder(false) && log.renamed
    ensures var before := Replay(FilePlace(false, atSource, false), MaybeRound(log.classified) + [Renamed]);
            && (Safe(before, log.After()) <==>
                (atSource || log.classified.value.source == Some(FULL)) && FirstFull(log.After()) != Some(Source))
            && (log.first.Some? && log.first.value.destination == FULL ==> FirstFull(log.After()) == Some(Destination))
  {
    ReplayClassified(log, atSource);
    SafeAfterRename(FilePlace(true, atSource || log.classified.value.source == Some(FULL), false), log.After());
    if log.first.Some? {
      FirstFullRound(log.first.value, MaybeRound(log.second));
    }
  }

  /** The same in terms of the sync results: the source is the first directory fully synced
      exactly when some round fully synced it while the destination was not yet. */
  lemma SourceFirst(log: MoveLog)
    requires log.InOrder(false)
    ensures FirstFull(log.After()) == Some(Source) <==>
            || (log.first.Some? && log.first.value.destination != FULL && log.first.value.source == Some(FULL))
            || (log.first.Some? && log.first.value.destination != FULL && log.first.value.source != Some(FULL) &&
                log.second.Some? && log.second.value.destination != FULL && log.second.value.source == Some(FULL))
  {
    if log.second.Some? {
      FirstFullRound(log.second.value, []);
      assert RoundEvents(log.second.value) + [] == RoundEvents(log.second.value);
    }
    if log.first.Some? {
      FirstFullRound(log.first.value, MaybeRound(log.second));
    } else {
      assert log.After() == [];
    }
  }

  /** A whole call, with or without the rename: a file that is durable at the source at the
      start survives every crash point exactly under that condition. */
  lemma WholeMoveSafe(log: MoveLog)
    requires log.InOrder(false)
    ensures Safe(FilePlace(false, true, false), log.Events()) <==> (log.renamed ==> FirstFull(log.After()) != Some(Source))
  {
    var start := FilePlace(false, true, false);
    if log.renamed {
      var head := MaybeRound(log.classified) + [Renamed];
      assert log.Events() == head + log.After();
      ReplayClassified(log, true);
      StillHeld(start, head);
      SafeConcat(start, head, log.After());
      MoveCrashSafe(log, true);
    } else {
      assert log.After() == [] && log.Events() == MaybeRound(log.classified);
      StillHeld(start, log.Events());
    }
  }

  /** Up to the rename the source keeps the file. */
  lemma {:induction false} StillHeld(f: FilePlace, events: seq<MoveEvent>)
    requires f.atSource && !f.moved
    requires forall i :: 0 <= i < |events| && events[i] == Renamed ==> i == |events| - 1
    ensures Safe(f, events)
    decreases |events|
  {
    if events == [] {
      assert events[..0] == events;
    } else {
      SafeStep(f, events);
      if |events| == 1 {
        assert events[1..] == [];
        assert forall k :: 0 <= k <= 0 ==> events[1..][..k] == [];
      } else {
        StillHeld(f.(atDestination := Apply(f, events[0]).atDestination), events[1..]);
      }
    }
  }

  lemma {:induction false} SafeConcat(f: FilePlace, a: seq<MoveEvent>, b: seq<MoveEvent>)
    ensures Safe(f, a + b) <==> Safe(f, a) && Safe(Replay(f, a), b)
    decreases |a|
  {
    if a == [] {
      assert a + b == b;
      if Safe(f, b) {
        assert b[..0] == [] && Replay(f, b[..0]).Survives();
        assert forall k :: 0 <= k <= |a| ==> a[..k] == [];
      }
    } else {
      assert (a + b)[1..] == a[1..] + b;
      SafeStep(f, a + b);
      SafeStep(f, a);
      SafeConcat(Apply(f, a[0]), a[1..], b);
    }
  }

  lemma FirstFullRound(r: MoveSyncReport, rest: seq<MoveEvent>)
    requires r.source.Some?
    ensures FirstFull(RoundEvents(r) + rest) ==
            if r.destination == FULL then Some(Destination)
            else if r.source.value == FULL then Some(Source)
            else FirstFull(rest)
  {
    var e := RoundEvents(r) + rest;
    assert e[0] == SyncDir(Destination, r.destination) && e[1..][0] == SyncDir(Source, r.source.value);
    assert e[1..][1..] == rest;
  }

  /** After a full last round the file is durably at the destination and nowhere else,
      whatever was synced before. */
  lemma FullLastRound(log: MoveLog, atSource: bool)
    requires log.InOrder(false) && log.renamed && log.Last() == Some(MoveSyncReport(FULL, Some(FULL)))
    ensures Replay(FilePlace(false, atSource, false), log.Events()) == FilePlace(true, false, true)
  {
    var c, last := log.classified.value, log.Last().value;
    var start := FilePlace(false, atSource, false);
    var head := RoundEvents(c) + [Renamed] + (if log.second.Some? then RoundEvents(log.first.value) else []);
    assert log.Events() == head + RoundEvents(last);
    ReplayConcat(start, head, RoundEvents(last));
    ReplayMoved(start, head, 2);
    ReplayRound(Replay(start, head), last);
  }

  /** `Moved(FullySynced)` means that every classification sync and every sync of the last
      round was full, and that the file is durably at the destination and nowhere else. */
  lemma FullySyncedMove(log: MoveLog, atSource: bool)
    requires log.InOrder(false) && log.Reports(FullySynced)
    ensures log.classified.value == MoveSyncReport(FULL, Some(FULL)) && log.Last().value == MoveSyncReport(FULL, Some(FULL))
    ensures Replay(FilePlace(false, atSource, false), log.Events()) == FilePlace(true, false, true)
  {
    assert log.classified.value.IntoResult().value == FullySynced && log.Last().value.IntoResult().value == FullySynced;
    FullLastRound(log, atSource);
  }

  lemma {:induction false} ReplayMoved(f: FilePlace, events: seq<MoveEvent>, k: nat)
    requires (k < |events| && events[k] == Renamed) || f.moved
    ensures Replay(f, events).moved
    decreases |events|
  {
    if events != [] {
      ReplayMoved(Apply(f, events[0]), events[1..], if k > 0 then k - 1 else 0);
    }
  }

  /** The source is flushed even when the destination sync failed, so a move can be lost to a
      crash between the two rounds although it goes on to report `Moved(FullySynced)`. */
  lemma LostBetweenRounds()
    ensures var full := MoveSyncReport(FULL, Some(FULL));
            var log := MoveLog(Some(full), true, Some(MoveSyncReport(SyncFailed, Some(FULL))), Some(full));
            && log.InOrder(false) && log.Reports(FullySynced)
            && !Safe(FilePlace(false, true, false), log.Events())
  {
    var full := MoveSyncReport(FULL, Some(FULL));
    var log := MoveLog(Some(full), true, Some(MoveSyncReport(SyncFailed, Some(FULL))), Some(full));
    SourceFirst(log);
    WholeMoveSafe(log);
  }

  /** A content move between two directories, over the steps it really did: a durable source file
      survives every crash point exactly under that condition, and a full report leaves it
      durably at the destination alone. */
  method MoveDurably(v: Vault, source: Path, destination: Path, expected: FileRevision, mode: Mode)
    returns (r: Outcome<MoveContentOutcome>, log: MoveLog)
    requires v.Valid() && source != [] && destination != [] && Parent(source) != Parent(destination)
    modifies v`root, v`steps
    ensures v.Valid() && v.steps == log.Steps(old(v.steps), source, destination)
    ensures Safe(FilePlace(false, true, false), log.Events()) <==>
            (v.root != old(v.root) ==> FirstFull(log.After()) != Some(Source))
    ensures r == Done(Moved(FullySynced)) ==>
              forall atSource :: Replay(FilePlace(false, atSource, false), log.Events()) == FilePlace(true, false, true)
  {
    r, log := v.MoveContent(source, destination, expected, mode);
    WholeMoveSafe(log);
    if r == Done(Moved(FullySynced)) {
      forall atSource ensures Replay(FilePlace(false, atSource, false), log.Events()) == FilePlace(true, false, true) {
        FullySyncedMove(log, atSource);
      }
    }
  }
}
