// crates/myvault-app-service/src/transfer.rs: the private transfer store. Stage files are
// written, accepted by digest, published as content-addressed objects by a link and an unlink,
// and only then created in the vault.

module PrivateStore {
  import Disk

  type Bytes = Disk.Bytes

  datatype Snapshot = Snapshot(sha256: string, revision: string, byteLen: nat)

  /** SHA-256 and BLAKE3 as opaque functions of the bytes. */
  datatype Digests = Digests(sha256: Bytes -> string, blake3: Bytes -> string) {
    function Of(b: Bytes): Snapshot {
      Snapshot(sha256(b), blake3(b), |b|)
    }
  }

  datatype StageRef = StageRef(operation: string, snapshot: Snapshot)

  datatype BaseRef = BaseRef(sha256: string, byteLen: nat)

  datatype TransferError =
    | InvalidRequest | DigestMismatch | ResourceLimit | StageUnavailable | StageAlreadyExists
    | StoreUnavailable | PublicationUnknown | UnsupportedReplace | VaultFailed(error: Disk.Error)

  datatype Reply<+T> = Done(value: T) | Failed(error: TransferError) | Stopped

  const NIL_OPERATION := "00000000-0000-0000-0000-000000000000"

  /** An open stage writer. Its file identifies it. */
  datatype Writer = Writer(operation: string, written: nat, maxBytes: nat)

  /** The two directories, the file objects, the open writers, and the streams that
      `finish_stage` has accepted. */
  datatype Private = Private(staging: map<string, nat>, objects: map<string, nat>, files: map<nat, Bytes>, writers: map<nat, Writer>) {

    function Links(f: nat): nat {
      (if f in staging.Values then 1 else 0) + (if f in objects.Values then 1 else 0)
    }

    ghost predicate Ok(d: Digests) {
      && (forall op :: op in staging ==> staging[op] in files)
      && (forall p, q :: p in staging && q in staging && staging[p] == staging[q] ==> p == q)
      && (forall x :: x in objects ==> objects[x] in files && d.sha256(files[objects[x]]) == x && objects[x] !in writers)
      && (forall f :: f in writers ==> f in files && writers[f].written == |files[f]|)
      && (forall op :: op in staging && staging[op] in writers ==> writers[staging[op]].operation == op)
    }

    /** The stage of `op` is finished and holds `b`. */
    ghost predicate Staged(op: string, b: Bytes) {
      op in staging && staging[op] in files && staging[op] !in writers && files[staging[op]] == b
    }

    /** An object with the digests and the length of `b` exists under its name. */
    ghost predicate Published(d: Digests, b: Bytes) {
      d.sha256(b) in objects && objects[d.sha256(b)] in files && d.Of(files[objects[d.sha256(b)]]) == d.Of(b)
    }

    ghost predicate Kept(d: Digests, a: (string, Bytes)) {
      Staged(a.0, a.1) || Published(d, a.1)
    }
  }

  ghost predicate AllKept(d: Digests, s: Private, accepted: set<(string, Bytes)>) {
    forall a :: a in accepted ==> s.Kept(d, a)
  }

  /** No two streams share a digest. */
  ghost predicate CollisionFree(d: Digests) {
    forall b, c :: d.sha256(b) == d.sha256(c) ==> b == c
  }

  /** The accepted stream itself can be read, byte for byte, under its stage or its object name. */
  ghost predicate Readable(d: Digests, s: Private, a: (string, Bytes)) {
    || (a.0 in s.staging && s.staging[a.0] in s.files && s.files[s.staging[a.0]] == a.1)
    || (d.sha256(a.1) in s.objects && s.objects[d.sha256(a.1)] in s.files && s.files[s.objects[d.sha256(a.1)]] == a.1)
  }

  lemma KeptIsReadable(d: Digests, s: Private, a: (string, Bytes))
    requires s.Kept(d, a) && CollisionFree(d)
    ensures Readable(d, s, a)
  {
  }

  // ----- What each disk step does

  function NewStage(s: Private, op: string, f: nat): Private {
    s.(staging := s.staging[op := f], files := s.files[f := []])
  }

  lemma NewStageKeeps(d: Digests, s: Private, op: string, f: nat, accepted: set<(string, Bytes)>)
    requires s.Ok(d) && AllKept(d, s, accepted) && op !in s.staging && f !in s.files
    ensures NewStage(s, op, f).Ok(d) && AllKept(d, NewStage(s, op, f), accepted)
  {
    var t := NewStage(s, op, f);
    forall a | a in accepted ensures t.Kept(d, a) {
      assert s.Kept(d, a);
    }
  }

  lemma OpenWriterKeeps(d: Digests, s: Private, op: string, f: nat, maxBytes: nat, accepted: set<(string, Bytes)>)
    requires s.Ok(d) && AllKept(d, s, accepted) && op !in s.staging && f !in s.files
    ensures var t := NewStage(s, op, f);
            t.(writers := t.writers[f := Writer(op, 0, maxBytes)]).Ok(d) && AllKept(d, t.(writers := t.writers[f := Writer(op, 0, maxBytes)]), accepted)
  {
    NewStageKeeps(d, s, op, f, accepted);
    var t := NewStage(s, op, f);
    var u := t.(writers := t.writers[f := Writer(op, 0, maxBytes)]);
    forall a | a in accepted ensures u.Kept(d, a) {
      assert s.Kept(d, a);
    }
  }

  function Appended(s: Private, f: nat, bytes: Bytes): Private
    requires f in s.files && f in s.writers
  {
    s.(files := s.files[f := s.files[f] + bytes], writers := s.writers[f := s.writers[f].(written := s.writers[f].written + |bytes|)])
  }

  lemma AppendKeeps(d: Digests, s: Private, f: nat, bytes: Bytes, accepted: set<(string, Bytes)>)
    requires s.Ok(d) && AllKept(d, s, accepted) && f in s.writers
    ensures Appended(s, f, bytes).Ok(d) && AllKept(d, Appended(s, f, bytes), accepted)
  {
    var t := Appended(s, f, bytes);
    forall a | a in accepted ensures t.Kept(d, a) {
      assert s.Kept(d, a);
    }
  }

  lemma CloseKeeps(d: Digests, s: Private, f: nat, accepted: set<(string, Bytes)>)
    requires s.Ok(d) && AllKept(d, s, accepted)
    ensures s.(writers := s.writers - {f}).Ok(d) && AllKept(d, s.(writers := s.writers - {f}), accepted)
  {
    var t := s.(writers := s.writers - {f});
    forall a | a in accepted ensures t.Kept(d, a) {
      assert s.Kept(d, a);
    }
  }

  function Linked(s: Private, op: string, digest: string): Private
    requires op in s.staging
  {
    s.(objects := s.objects[digest := s.staging[op]])
  }

  lemma LinkKeeps(d: Digests, s: Private, op: string, b: Bytes, accepted: set<(string, Bytes)>)
    requires s.Ok(d) && AllKept(d, s, accepted) && s.Staged(op, b) && d.sha256(b) !in s.objects
    ensures Linked(s, op, d.sha256(b)).Ok(d) && AllKept(d, Linked(s, op, d.sha256(b)), accepted)
    ensures Linked(s, op, d.sha256(b)).Published(d, b)
  {
    var t := Linked(s, op, d.sha256(b));
    forall a | a in accepted ensures t.Kept(d, a) {
      assert s.Kept(d, a);
    }
  }

  /** Removing a finished stage is harmless once its object exists. */
  lemma UnlinkKeeps(d: Digests, s: Private, op: string, b: Bytes, accepted: set<(string, Bytes)>)
    requires s.Ok(d) && AllKept(d, s, accepted) && s.Staged(op, b) && s.Published(d, b)
    ensures s.(staging := s.staging - {op}).Ok(d) && AllKept(d, s.(staging := s.staging - {op}), accepted)
  {
    var t := s.(staging := s.staging - {op});
    forall a | a in accepted ensures t.Kept(d, a) {
      assert s.Kept(d, a);
    }
  }

  function Dropped(s: Private, op: string): Private {
    s.(staging := s.staging - {op})
  }

  /** Removing any stage costs at most the stream accepted under its name. */
  lemma DropCosts(d: Digests, s: Private, op: string, accepted: set<(string, Bytes)>)
    requires s.Ok(d) && AllKept(d, s, accepted) && op in s.staging
    ensures Dropped(s, op).Ok(d)
    ensures forall a :: a in accepted && !Dropped(s, op).Kept(d, a) ==> a == (op, s.files[s.staging[op]])
  {
    var t := Dropped(s, op);
    forall a | a in accepted && !t.Kept(d, a) ensures a == (op, s.files[s.staging[op]]) {
      assert s.Kept(d, a);
      assert a.0 != op ==> t.Staged(a.0, a.1) || s.Published(d, a.1);
    }
  }

  /** A file that a writer holds and that has a link is the stage of its operation. */
  lemma OneLinkIsStaged(d: Digests, s: Private, f: nat)
    requires s.Ok(d) && f in s.writers && s.Links(f) == 1
    ensures s.writers[f].operation in s.staging && s.staging[s.writers[f].operation] == f
  {
    assert f !in s.objects.Values;
    var op :| op in s.staging && s.staging[op] == f;
  }

  class PrivateTransferStore {
    const digests: Digests
    var staging: map<string, nat>
    var objects: map<string, nat>
    var files: map<nat, Bytes>
    var writers: map<nat, Writer>
    var next: nat
    var calm: bool  // no failure and no stop happens while this holds
    ghost var accepted: set<(string, Bytes)>

    constructor (digests: Digests)
      ensures Valid() && this.digests == digests && staging == map[] && objects == map[] && accepted == {}
    {
      this.digests := digests;
      staging, objects, files, writers, next, calm, accepted := map[], map[], map[], map[], 0, false, {};
    }

    function View(): Private
      reads this
    {
      Private(staging, objects, files, writers)
    }

    /** Every object is what its name says, and every accepted stream can still be read. */
    ghost predicate Valid()
      reads this
    {
      View().Ok(digests) && AllKept(digests, View(), accepted) && forall f :: f in files ==> f < next
    }

    method Fault() returns (bad: bool)
      ensures calm ==> !bad
    {
      bad := *;
      bad := bad && !calm;
    }

    /** Opens a stage by name and requires a link count from one to `maxLinks`. */
    method OpenStage(op: string, maxLinks: nat) returns (r: Reply<nat>)
      requires Valid()
      ensures r.Done? ==> op in staging && r.value == staging[op] && View().Links(staging[op]) <= maxLinks
      ensures calm && op in staging && View().Links(staging[op]) <= maxLinks ==> r.Done?
    {
      if op !in staging { return Failed(StageUnavailable); }
      var bad := Fault();
      var n := View().Links(staging[op]);
      if bad || n > maxLinks { return Failed(StoreUnavailable); }
      return Done(staging[op]);
    }

    method BeginStage(op: string, maxBytes: nat) returns (r: Reply<nat>)
      requires Valid()
      modifies this`staging, this`files, this`writers, this`next
      ensures Valid()
      ensures staging == old(staging) ==> View() == old(View())
      ensures staging != old(staging) ==>
                && op !in old(staging) && op in staging && staging[op] !in old(files)
                && View() == NewStage(old(View()), op, staging[op]).(writers := writers)
                && writers == if r.Done? then old(writers)[staging[op] := Writer(op, 0, maxBytes)] else old(writers)
      ensures r.Done? ==> staging != old(staging) && r.value == staging[op]
      ensures op == NIL_OPERATION ==> r == Failed(InvalidRequest) && View() == old(View())
      ensures calm && op != NIL_OPERATION && op !in old(staging) ==> r.Done?
    {
      if op == NIL_OPERATION { return Failed(InvalidRequest); }
      var bad := Fault();
      if bad { return Failed(StoreUnavailable); }
      if op in staging { return Failed(StageAlreadyExists); }
      var f := next;
      NewStageKeeps(digests, View(), op, f, accepted);
      OpenWriterKeeps(digests, View(), op, f, maxBytes, accepted);
      next := next + 1;
      files := files[f := []];
      staging := staging[op := f];
      assert View() == NewStage(old(View()), op, f);
      bad := Fault();
      if bad { return Failed(StoreUnavailable); }
      bad := Fault();
      if bad { return Stopped; }
      writers := writers[f := Writer(op, 0, maxBytes)];
      return Done(f);
    }

    /** How much of a write reaches the file. */
    method WrittenLength(length: nat) returns (count: nat)
      ensures count <= length && (calm ==> count == length)
    {
      count := length;
      if !calm {
        count :| 0 <= count <= length;
      }
    }

    /** `TransferStageWriter::write`: a prefix of the bytes reaches the file. */
    method Write(f: nat, bytes: Bytes) returns (r: Reply<nat>)
      requires Valid()
      modifies this`files, this`writers
      ensures Valid()
      ensures r.Done? ==> r.value <= |bytes| && f in old(writers) && View() == Appended(old(View()), f, bytes[..r.value]) &&
                          writers[f].written <= writers[f].maxBytes
      ensures !r.Done? ==> View() == old(View())
      // With no failure every write within the limit goes through as a whole.
      ensures calm && f in old(writers) && old(writers)[f].written + |bytes| <= old(writers)[f].maxBytes ==> r == Done(|bytes|)
      ensures f in old(writers) && old(writers)[f].written + |bytes| > old(writers)[f].maxBytes ==> !r.Done?
    {
      if f !in writers || writers[f].written + |bytes| > writers[f].maxBytes { return Failed(StoreUnavailable); }
      var bad := Fault();
      if bad { return Failed(StoreUnavailable); }
      var count := WrittenLength(|bytes|);
      AppendKeeps(digests, View(), f, bytes[..count], accepted);
      files := files[f := files[f] + bytes[..count]];
      writers := writers[f := writers[f].(written := writers[f].written + count)];
      return Done(count);
    }

    /** A writer that is dropped. */
    method Abandon(f: nat)
      requires Valid()
      modifies this`writers
      ensures Valid() && writers == old(writers) - {f}
    {
      CloseKeeps(digests, View(), f, accepted);
      writers := writers - {f};
    }

    method LoadStage(op: string, sha256: string, byteLen: nat, maxBytes: nat) returns (r: Reply<StageRef>)
      requires Valid()
      ensures r.Done? ==> && op in staging
                          && r.value == StageRef(op, Snapshot(digests.sha256(files[staging[op]]), digests.blake3(files[staging[op]]), |files[staging[op]]|))
                          && r.value.snapshot.sha256 == sha256 && r.value.snapshot.byteLen == byteLen <= maxBytes
      ensures calm && op != NIL_OPERATION && op in staging && digests.sha256(files[staging[op]]) == sha256 &&
              |files[staging[op]]| == byteLen <= maxBytes
              ==> r.Done?
      ensures op == NIL_OPERATION || byteLen > maxBytes ==> r == Failed(InvalidRequest)
    {
      if op == NIL_OPERATION || byteLen > maxBytes { return Failed(InvalidRequest); }
      var stage := OpenStage(op, 2);
      if !stage.Done? { return Failed(StageUnavailable); }
      var bytes := files[stage.value];
      if |bytes| > maxBytes { return Failed(ResourceLimit); }
      if digests.sha256(bytes) != sha256 || |bytes| != byteLen { return Failed(DigestMismatch); }
      return Done(StageRef(op, digests.Of(bytes)));
    }

    /** Closes the writer and accepts the stream only when its digest and length are the declared
        ones, and then always if nothing fails and the stage is still in place. */
    method FinishStage(f: nat, sha256: string, byteLen: nat, maxBytes: nat) returns (r: Reply<StageRef>)
      requires Valid() && f in writers
      modifies this`writers, this`accepted
      ensures Valid() && View() == old(View()).(writers := old(writers) - {f})
      ensures r.Done? ==>
                var op := old(writers)[f].operation;
                && op in staging && staging[op] == f
                && r.value == StageRef(op, Snapshot(digests.sha256(files[f]), digests.blake3(files[f]), |files[f]|))
                && digests.sha256(files[f]) == sha256 && |files[f]| == byteLen <= maxBytes
                && accepted == old(accepted) + {(op, files[f])}
      ensures !r.Done? ==> accepted == old(accepted)
      ensures calm && old(writers)[f].operation != NIL_OPERATION && old(View().Links(f)) == 1 &&
              digests.sha256(files[f]) == sha256 && |files[f]| == byteLen <= maxBytes
              ==> r.Done?
    {
      var writer := writers[f];
      CloseKeeps(digests, View(), f, accepted);
      writers := writers - {f};
      if writer.written != byteLen || writer.written > maxBytes { return Failed(DigestMismatch); }
      var bad := Fault();
      var n := View().Links(f);
      if bad || n != 1 { return Failed(StoreUnavailable); }
      bad := Fault();
      if bad { return Stopped; }
      OneLinkIsStaged(digests, old(View()), f);
      ghost var op := writer.operation;
      r := LoadStage(writer.operation, sha256, byteLen, maxBytes);
      if r.Done? {
        accepted := accepted + {(op, files[f])};
      }
    }

    /** `discard_incomplete_stage` removes only a stage that is shorter than expected and has
        no object; a stream accepted for the operation is lost only to a caller that expects
        more bytes than were accepted. */
    method DiscardIncomplete(op: string, sha256: string, byteLen: nat, maxBytes: nat) returns (r: Reply<()>)
      requires Valid()
      modifies this`staging, this`accepted
      ensures Valid() && View() == old(View()).(staging := staging)
      ensures staging == old(staging) || (op in old(staging) && staging == old(staging) - {op} && |files[old(staging)[op]]| < byteLen)
      ensures accepted <= old(accepted)
      ensures forall a :: a in old(accepted) && a !in accepted ==> staging != old(staging) && a.0 == op && |a.1| < byteLen
      ensures r.Done? ==> staging != old(staging)
      ensures op in old(staging) && |files[old(staging)[op]]| >= byteLen ==> staging == old(staging) && !r.Done?
      ensures calm && op != NIL_OPERATION && op in old(staging) && old(View().Links(staging[op])) == 1 &&
              |files[old(staging)[op]]| < byteLen <= maxBytes
              ==> r.Done?
      ensures op == NIL_OPERATION || byteLen > maxBytes ==> r == Failed(InvalidRequest)
      // A complete stage is told apart from one with other bytes.
      ensures calm && op != NIL_OPERATION && op in old(staging) && old(View().Links(staging[op])) == 1 &&
              byteLen <= |files[old(staging)[op]]| <= maxBytes
              ==> r == Failed(if digests.Of(files[old(staging)[op]]).sha256 == sha256 && |files[old(staging)[op]]| == byteLen
                              then StageAlreadyExists else DigestMismatch)
    {
      if op == NIL_OPERATION || byteLen > maxBytes { return Failed(InvalidRequest); }
      var stage := OpenStage(op, 1);
      if !stage.Done? { return Failed(StageUnavailable); }
      var bytes := files[stage.value];
      if |bytes| > maxBytes { return Failed(ResourceLimit); }
      if digests.sha256(bytes) == sha256 && |bytes| == byteLen { return Failed(StageAlreadyExists); }
      if |bytes| >= byteLen { return Failed(DigestMismatch); }
      var bad := Fault();
      if bad { return Stopped; }
      DropCosts(digests, View(), op, accepted);
      staging := staging - {op};
      assert View() == Dropped(old(View()), op);
      accepted := set a | a in accepted && View().Kept(digests, a);
      bad := Fault();
      if bad { return Failed(StoreUnavailable); }
      return Done(());
    }

    /** `publish_base`: link under the object name, then unlink the stage name. */
    method PublishBase(stage: StageRef, maxBytes: nat) returns (r: Reply<BaseRef>)
      requires Valid() && (stage.operation in staging ==> staging[stage.operation] !in writers)
      modifies this`staging, this`objects
      ensures Valid() && accepted == old(accepted)
      ensures BaseStep(digests, old(View()), View(), stage)
      ensures r.Done? ==> stage.operation !in staging && stage.snapshot.sha256 in objects && r.value == BaseRef(stage.snapshot.sha256, stage.snapshot.byteLen)
      // With no failure: the stage is always removed, and the call succeeds exactly when no
      // other stage still links the object.
      ensures calm && old(Publishable(digests, View(), stage, maxBytes)) ==>
                && stage.operation !in staging && stage.snapshot.sha256 in objects
                && (r.Done? <==> objects[stage.snapshot.sha256] !in staging.Values)
    {
      var op, digest := stage.operation, stage.snapshot.sha256;
      var loaded := LoadStage(op, digest, stage.snapshot.byteLen, maxBytes);
      if !loaded.Done? { return Failed(StageUnavailable); }
      if loaded.value != stage { return Failed(DigestMismatch); }
      var linked := LinkObject(stage);
      if !linked.Done? { return if linked.Stopped? then Stopped else Failed(linked.error); }
      ghost var b := files[staging[op]];
      if digests.Of(files[objects[digest]]) != stage.snapshot { return Failed(DigestMismatch); }
      var bad := Fault();
      if bad { return Stopped; }
      UnlinkKeeps(digests, View(), op, b, accepted);
      staging := staging - {op};
      bad := Fault();
      if bad { return Failed(StoreUnavailable); }
      var n := View().Links(objects[digest]);
      bad := Fault();
      if bad || n != 1 { return Failed(StoreUnavailable); }
      return Done(BaseRef(digest, stage.snapshot.byteLen));
    }

    /** The first half: the object exists afterwards. */
    method LinkObject(stage: StageRef) returns (r: Reply<()>)
      requires Valid() && stage.operation in staging && staging[stage.operation] !in writers
      requires stage.snapshot == digests.Of(files[staging[stage.operation]])
      modifies this`objects
      ensures Valid()
      ensures objects == old(objects) || (stage.snapshot.sha256 !in old(objects) && View() == Linked(old(View()), stage.operation, stage.snapshot.sha256))
      ensures r.Done? ==> stage.snapshot.sha256 in objects
      ensures calm && (stage.snapshot.sha256 in old(objects) && old(objects)[stage.snapshot.sha256] != staging[stage.operation] ==>
                       staging[stage.operation] !in old(objects).Values)
              ==> r.Done?
    {
      var op, digest := stage.operation, stage.snapshot.sha256;
      var f := staging[op];
      var n := View().Links(f);
      if digest in objects {
        var bad := Fault();
        if bad { return Failed(StoreUnavailable); }
        if n > 1 && objects[digest] != f { return Failed(PublicationUnknown); }
        return Done(());
      }
      if n != 1 { return Failed(StoreUnavailable); }
      var bad := Fault();
      if bad { return Stopped; }
      LinkKeeps(digests, View(), op, files[f], accepted);
      objects := objects[digest := f];
      bad := Fault();
      if bad { return Failed(StoreUnavailable); }
      bad := Fault();
      if bad { return Stopped; }
      return Done(());
    }

    method OpenBase(base: BaseRef, maxBytes: nat) returns (r: Reply<Bytes>)
      requires Valid()
      ensures r.Done? ==> && base.sha256 in objects && r.value == files[objects[base.sha256]]
                          && digests.sha256(r.value) == base.sha256 && |r.value| == base.byteLen <= maxBytes
                          && View().Links(objects[base.sha256]) == 1
      ensures calm && base.sha256 in objects && View().Links(objects[base.sha256]) == 1 &&
              |files[objects[base.sha256]]| == base.byteLen <= maxBytes
              ==> r.Done?
    {
      if base.sha256 !in objects { return Failed(StoreUnavailable); }
      var f := objects[base.sha256];
      var bad := Fault();
      var n := View().Links(f);
      if bad || n != 1 { return Failed(StoreUnavailable); }
      var bytes := files[f];
      if |bytes| > maxBytes { return Failed(ResourceLimit); }
      if digests.sha256(bytes) != base.sha256 || |bytes| != base.byteLen { return Failed(DigestMismatch); }
      return Done(bytes);
    }
  }

  /** What publishing may leave, wherever it stops: nothing, the link, or the link without the
      stage. Objects are never removed or replaced. */
  ghost predicate BaseStep(d: Digests, pre: Private, post: Private, stage: StageRef) {
    || post == pre
    || (&& stage.operation in pre.staging && stage.snapshot.sha256 !in pre.objects
        && post == Linked(pre, stage.operation, stage.snapshot.sha256))
    || (&& stage.operation in pre.staging && stage.snapshot.sha256 in post.objects
        && post.objects == (if stage.snapshot.sha256 in pre.objects then pre.objects
                            else pre.objects[stage.snapshot.sha256 := pre.staging[stage.operation]])
        && post == Private(pre.staging - {stage.operation}, post.objects, pre.files, pre.writers))
  }

  /** The stage is what its reference says, and an object of its name has the same snapshot. */
  ghost predicate Publishable(d: Digests, s: Private, stage: StageRef, maxBytes: nat) {
    && stage.operation != NIL_OPERATION && stage.operation in s.staging && s.staging[stage.operation] in s.files
    && stage.snapshot == d.Of(s.files[s.staging[stage.operation]]) && stage.snapshot.byteLen <= maxBytes
    && (stage.snapshot.sha256 in s.objects ==>
          s.objects[stage.snapshot.sha256] in s.files && d.Of(s.files[s.objects[stage.snapshot.sha256]]) == stage.snapshot)
  }

  // ----- Two plausible claims that fail

  /** Two stages of one stream. A publish of the first that is cut off after its link leaves the
      second publishable, and yet its object stays linked by the first stage: publishing it
      removes its stage and does not succeed. */
  lemma LinkedByAnother(d: Digests, b: Bytes, p: string, q: string) returns (before: Private, s: Private)
    requires p != q && p != NIL_OPERATION && q != NIL_OPERATION
    ensures before.Ok(d) && before.Staged(p, b) && before.Staged(q, b) && BaseStep(d, before, s, StageRef(p, d.Of(b)))
    ensures s.Ok(d) && Publishable(d, s, StageRef(q, d.Of(b)), |b|)
    ensures d.sha256(b) in s.objects && s.objects[d.sha256(b)] in Dropped(s, q).staging.Values
  {
    before := Private(map[p := 0, q := 1], map[], map[0 := b, 1 := b], map[]);
    s := Linked(before, p, d.sha256(b));
    assert Dropped(s, q).staging[p] == 0;
  }

  /** A finished and accepted stage that a discard removes when its caller expects more bytes. */
  lemma AcceptedIsDropped(d: Digests, b: Bytes, op: string) returns (s: Private)
    requires op != NIL_OPERATION
    ensures s.Ok(d) && s.Staged(op, b) && s.Links(s.staging[op]) == 1
    ensures !Dropped(s, op).Kept(d, (op, b))
  {
    s := Private(map[op := 0], map[], map[0 := b], map[]);
    assert s.staging[op] in s.staging.Values;
  }
}
