// Crash safety of the three renames of the Trash store. A payload moves between its content
// directory and an item directory, an item moves between the two containers, and each of these
// moves flushes its two directories in the rounds of the content move.

module TrashDurability {
  import opened Wrappers
  import opened Tree
  import opened Paths
  import opened Disk
  import opened TrashProtocol
  import opened TrashCalls
  import opened Durability

  /** A durable entry survives every crash point of a call exactly when the source directory is
      not the first one fully synced after the rename. */
  ghost predicate SurvivesExactly(log: MoveLog) {
    Safe(FilePlace(false, true, false), log.Events()) <==> (log.renamed ==> FirstFull(log.After()) != Some(Source))
  }

  /** After the call the entry is durably at its new place and nowhere else. */
  ghost predicate EndsDurable(log: MoveLog) {
    forall atSource :: Replay(FilePlace(false, atSource, false), log.Events()) == FilePlace(true, false, true)
  }

  // In each of the three calls `log` holds what the call really did to the disk, in order.

  /** Staging: the payload at its content path. A reported full durability, which covers the
      containers and the last round, puts it durably into the staging directory alone. */
  method StageDurably(t: TrashStore, id: string, source: Path, digest: string)
    returns (r: Outcome<StagePayloadOutcome>, container: Option<MoveSyncReport>, log: MoveLog)
    requires t.Valid() && source != []
    modifies t.vault`root, t.vault`steps
    ensures t.Valid()
    ensures Logged(log, old(t.vault.root), t.vault.root) && SurvivesExactly(log)
    ensures t.vault.steps == log.Steps(MaybeSteps(old(t.vault.steps), container, ItemDir(Staging, id), ItemDir(Items, id)),
                                       source, old(StageTarget(t.vault.root, id)))
    ensures r == Done(Staged(FullySynced)) ==> EndsDurable(log)
  {
    r, container, log := t.StagePayload(id, source, digest);
    WholeMoveSafe(log);
    if r == Done(Staged(FullySynced)) {
      ReportedLast(log, container.value.IntoResult().value);
    }
  }

  /** Publishing: the item directory in the staging container. */
  method PublishDurably(t: TrashStore, id: string, digest: string) returns (r: Outcome<PublishItemOutcome>, log: MoveLog)
    requires t.Valid()
    modifies t.vault`root, t.vault`steps
    ensures t.Valid()
    ensures Logged(log, old(t.vault.root), t.vault.root) && SurvivesExactly(log)
    ensures t.vault.steps == log.Steps(old(t.vault.steps), ItemDir(Staging, id), ItemDir(Items, id))
    ensures r == Done(Publish(FullySynced)) ==> EndsDurable(log)
  {
    r, log := t.PublishItem(id, digest);
    WholeMoveSafe(log);
    if r == Done(Publish(FullySynced)) {
      ReportedLast(log, FullySynced);
    }
  }

  /** Restoring: the payload in the item directory. */
  method RestoreDurably(t: TrashStore, id: string, destination: Path, digest: string) returns (r: Outcome<RestoreItemOutcome>, log: MoveLog)
    requires t.Valid() && destination != []
    modifies t.vault`root, t.vault`steps
    ensures t.Valid()
    ensures Logged(log, old(t.vault.root), t.vault.root) && SurvivesExactly(log)
    ensures t.vault.steps == log.Steps(old(t.vault.steps), Payload(Items, id), destination)
    ensures r == Done(Restored(FullySynced)) ==> EndsDurable(log)
  {
    r, log := t.RestoreItem(id, destination, digest);
    WholeMoveSafe(log);
    if r == Done(Restored(FullySynced)) {
      ReportedLast(log, FullySynced);
    }
  }

  lemma ReportedLast(log: MoveLog, earlier: MoveDurability)
    requires log.InOrder(false) && log.renamed && Reported(log, earlier, FullySynced)
    ensures EndsDurable(log)
  {
    assert log.Last().value.IntoResult().value == FullySynced;
    forall atSource ensures Replay(FilePlace(false, atSource, false), log.Events()) == FilePlace(true, false, true) {
      FullLastRound(log, atSource);
    }
  }

  /** The report of a stage leaves out the round on the endpoints before the rename. With these
      results it is full although that round was not, and a source entry that was not durable
      before is in no durable directory right after the rename. */
  lemma StageReportHidesEndpoints() returns (log: MoveLog)
    ensures log.InOrder(false) && log.Cautious() && Reported(log, FullySynced, FullySynced)
    ensures log.classified.value.IntoResult().value == DirectorySyncUnsupported
    ensures !Safe(Replay(FilePlace(false, false, false), MaybeRound(log.classified) + [Renamed]), log.After())
  {
    var unsupported := Synced(DirectorySyncUnsupported);
    log := MoveLog(Some(MoveSyncReport(unsupported, Some(unsupported))), true, Some(MoveSyncReport(FULL, Some(FULL))), None);
    MoveCrashSafe(log, false);
  }
}
