// crates/myvault-app-service/src/transfer.rs: publishing a stage into the vault, and runs of
// calls over many operations.

module TransferRuns {
  import opened Wrappers
  import opened Tree
  import opened Paths
  import Disk
  import opened VaultCore
  import opened Mutations
  import opened PrivateStore

  /** `publish_stage`. Nothing reaches the vault before an object with the bytes exists, and
      the object outlives every failure after that. A request that names an existing revision
      is always refused by the vault, after the object was published. */
  method PublishStage(v: Vault, store: PrivateTransferStore, stage: StageRef, path: Path, expected: Option<Disk.FileRevision>,
                      maxBytes: nat, tempName: string)
    returns (r: Reply<Disk.MoveDurability>)
    requires v.Valid() && store.Valid() && path != [] && tempName != Leaf(path)
    requires stage.operation in store.staging ==> store.staging[stage.operation] !in store.writers
    modifies store`staging, store`objects, v`root, v`steps, v`objects, v`next
    ensures v.Valid() && store.Valid() && store.accepted == old(store.accepted)
    ensures BaseStep(store.digests, old(store.View()), store.View(), stage)
    ensures Preserves(old(v.View()), v.View())
    ensures v.View() != old(v.View()) ==> HasObject(store.View(), stage)
    ensures expected.Some? ==> v.View() == old(v.View()) && !r.Done?
    ensures r.Done? ==> && HasObject(store.View(), stage)
                        && Created(old(v.View()), v.View(), path, store.files[store.objects[stage.snapshot.sha256]])
                        && store.digests.sha256(store.files[store.objects[stage.snapshot.sha256]]) == stage.snapshot.sha256
    // With no failure a finished stage whose object no other stage links ends as a new vault file.
    ensures v.calm && store.calm && expected.None? &&
            old(Publishable(store.digests, store.View(), stage, maxBytes) && LinkedByNoOther(store.View(), stage)) &&
            old(CreatableAt(v, path, tempName)) && (forall b: Bytes :: Disk.FileRevision(v.hash(b), |b|).Valid())
            ==> r == Done(Disk.FullySynced)
  {
    var base := store.PublishBase(stage, maxBytes);
    if !base.Done? { return if base.Stopped? then Stopped else Failed(PublicationUnknown); }
    var reader := store.OpenBase(base.value, maxBytes);
    if !reader.Done? { return if reader.Stopped? then Stopped else Failed(reader.error); }
    if expected.Some? { return Failed(UnsupportedReplace); }
    var created := CreateContent(v, path, reader.value, store.digests.sha256, stage.snapshot.sha256, stage.snapshot.byteLen, maxBytes, tempName);
    match created {
      case Done(durability) => return Reply.Done(durability);
      case Failed(e) => return Reply.Failed(VaultFailed(e));
      case Stopped => return Reply.Stopped;
    }
  }

  /** No other stage is a link of the object that the stage would become. */
  ghost predicate LinkedByNoOther(s: Private, stage: StageRef) {
    forall q :: q in s.staging && q != stage.operation && stage.snapshot.sha256 in s.objects ==> s.staging[q] != s.objects[stage.snapshot.sha256]
  }

  /** A new content file can be made at the path. */
  ghost predicate CreatableAt(v: Vault, path: Path, tempName: string)
    requires path != []
    reads v
  {
    Classify(v.naming, path) == Content && Placeable(v.naming, v.root, path) && At(v.root, Parent(path) + [tempName]) == Absent
  }

  /** An object with the length and digest of the stage exists. */
  ghost predicate HasObject(s: Private, stage: StageRef) {
    && stage.snapshot.sha256 in s.objects && s.objects[stage.snapshot.sha256] in s.files
    && |s.files[s.objects[stage.snapshot.sha256]]| == stage.snapshot.byteLen
  }

  datatype Call =
    | CallBegin(operation: string, maxBytes: nat)
    | CallWrite(file: nat, bytes: Bytes)
    | CallAbandon(file: nat)
    | CallFinish(file: nat, sha256: string, byteLen: nat, maxBytes: nat)
    | CallDiscard(operation: string, sha256: string, byteLen: nat, maxBytes: nat)
    | CallPublish(stage: StageRef, maxBytes: nat)

  /** The call discards an incomplete stage of this operation and expects more bytes than the
      accepted stream has. */
  predicate ExpectsMore(call: Call, a: (string, Bytes)) {
    call.CallDiscard? && call.operation == a.0 && call.byteLen > |a.1|
  }

  method RunOne(store: PrivateTransferStore, call: Call)
    requires store.Valid()
    modifies store
    ensures store.Valid() && ObjectsKept(old(store.View()), store.View())
    ensures forall a :: a in old(store.accepted) && a !in store.accepted ==> ExpectsMore(call, a)
  {
    match call {
      case CallBegin(op, maxBytes) =>
        var _ := store.BeginStage(op, maxBytes);
      case CallWrite(f, bytes) =>
        var _ := store.Write(f, bytes);
      case CallAbandon(f) => store.Abandon(f);
      case CallFinish(f, sha256, byteLen, maxBytes) =>
        if f in store.writers {
          var _ := store.FinishStage(f, sha256, byteLen, maxBytes);
        }
      case CallDiscard(op, sha256, byteLen, maxBytes) =>
        var _ := store.DiscardIncomplete(op, sha256, byteLen, maxBytes);
      case CallPublish(stage, maxBytes) =>
        if stage.operation !in store.staging || store.staging[stage.operation] !in store.writers {
          var _ := store.PublishBase(stage, maxBytes);
        }
    }
  }

  /** Objects stay, with their bytes. */
  ghost predicate ObjectsKept(pre: Private, post: Private) {
    forall x :: x in pre.objects ==>
      x in post.objects && post.objects[x] == pre.objects[x] &&
      (pre.objects[x] in pre.files ==> pre.objects[x] in post.files && post.files[pre.objects[x]] == pre.files[pre.objects[x]])
  }

  /** No discard of the run expects more than was accepted for its operation. */
  ghost predicate NeverExpectsMore(calls: seq<Call>, accepted: set<(string, Bytes)>) {
    forall i, a :: 0 <= i < |calls| && a in accepted ==> !ExpectsMore(calls[i], a)
  }

  /** Any calls over any operations, each of which may fail or be cut off anywhere: every object
      is what its name says and stays, and of all streams `ever` accepted each can still be
      read under its stage or its object name, unless a discard expected more of it; with
      collision-free digests it is read back byte for byte. */
  method RunAll(store: PrivateTransferStore, calls: seq<Call>) returns (ghost ever: set<(string, Bytes)>)
    requires store.Valid()
    modifies store
    ensures store.Valid() && ObjectsKept(old(store.View()), store.View())
    ensures old(store.accepted) <= ever && store.accepted <= ever
    ensures forall a :: a in ever ==> store.View().Kept(store.digests, a) || exists i :: 0 <= i < |calls| && ExpectsMore(calls[i], a)
    ensures NeverExpectsMore(calls, ever) ==> AllKept(store.digests, store.View(), ever)
    ensures NeverExpectsMore(calls, ever) && CollisionFree(store.digests) ==> forall a :: a in ever ==> Readable(store.digests, store.View(), a)
    ensures forall x :: x in store.objects ==> store.objects[x] in store.files && store.digests.sha256(store.files[store.objects[x]]) == x
  {
    ever := store.accepted;
    var i := 0;
    while i < |calls|
      invariant 0 <= i <= |calls| && store.Valid() && ObjectsKept(old(store.View()), store.View())
      invariant old(store.accepted) <= ever && store.accepted <= ever
      invariant forall a :: a in ever && a !in store.accepted ==> exists k :: 0 <= k < i && ExpectsMore(calls[k], a)
    {
      RunOne(store, calls[i]);
      ever := ever + store.accepted;
      i := i + 1;
    }
    if NeverExpectsMore(calls, ever) && CollisionFree(store.digests) {
      forall a | a in ever ensures Readable(store.digests, store.View(), a) {
        KeptIsReadable(store.digests, store.View(), a);
      }
    }
  }
}
