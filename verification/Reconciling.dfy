// crates/myvault-drive/src/transfer.rs: deciding from provider queries whether a file may be
// created, confirming a created file, and why at most one live file carries a marker.

module Reconciling {
  import opened Wrappers
  import opened Encoding
  import opened Transfers

  /** One answer to a file query; `None` stands for a request that failed. */
  datatype Page = Page(files: seq<TransferFile>, hasNext: bool, incomplete: bool)

  datatype Reason = OperationMarkerMismatch | DuplicateOperationMarker | ExistingDifferent | DuplicateName

  datatype Reconciliation =
    | VerifiedExisting(remote: RemoteObject)
    | NeedsReconcile(reason: Reason)
    | AbsentFile(permit: CreateIntent)

  /** A complete answer with only live, valid files of the folder. */
  ghost predicate Usable(answer: Option<Page>, parentId: string) {
    && answer.Some? && !answer.value.incomplete && !answer.value.hasNext
    && forall i :: 0 <= i < |answer.value.files| ==>
         ValidFile(answer.value.files[i]) && !answer.value.files[i].trashed && answer.value.files[i].parents == [parentId]
  }

  /** `query_files_with_page_size`, given what the provider answered. */
  method QueryFiles(answer: Option<Page>, parentId: string) returns (r: Result<seq<TransferFile>, TransferError>)
    ensures r.Ok? <==> Usable(answer, parentId)
    ensures r.Ok? ==> r.value == answer.value.files
    ensures r.Ok? ==> forall f :: f in r.value ==> f.wellFormed && !f.trashed && f.parents == [parentId] &&
                                                   (f.version.Some? ==> ValidVersion(f.version.value))
    ensures r.Err? ==> r.error == if answer.None? then Transport
                                  else if answer.value.incomplete || answer.value.hasNext then AmbiguousRemote else MalformedResponse
  {
    if answer.None? {
      return Err(Transport);
    }
    var page := answer.value;
    if page.incomplete || page.hasNext {
      return Err(AmbiguousRemote);
    }
    var i := 0;
    while i < |page.files|
      invariant 0 <= i <= |page.files|
      invariant forall j :: 0 <= j < i ==> ValidFile(page.files[j]) && !page.files[j].trashed && page.files[j].parents == [parentId]
    {
      var file := page.files[i];
      if !ValidFile(file) || file.trashed || file.parents != [parentId] {
        return Err(MalformedResponse);
      }
      i := i + 1;
    }
    return Ok(page.files);
  }

  /** The answer is usable and lists exactly one file. */
  ghost predicate Single(answer: Option<Page>, parentId: string) {
    Usable(answer, parentId) && |answer.value.files| == 1
  }

  ghost predicate Empty(answer: Option<Page>, parentId: string) {
    Usable(answer, parentId) && answer.value.files == []
  }

  /** `f` was seen alone in the answer, read back by its id, and both times fits the intent. */
  ghost predicate SeenTwice(answer: Option<Page>, recheck: Option<TransferFile>, intent: CreateIntent, marker: bool) {
    && Single(answer, intent.parentId) && recheck.Some? && recheck.value.id == answer.value.files[0].id
    && SameContent(answer.value.files[0], intent) && SameContent(recheck.value, intent)
    && (marker ==> Matches(answer.value.files[0], intent) && Matches(recheck.value, intent))
  }

  /** The metadata read found the file again. */
  ghost predicate ReadBack(recheck: Option<TransferFile>, id: string) {
    recheck.Some? && ValidFile(recheck.value) && recheck.value.id == id
  }

  /** The file was seen twice and its version is known. */
  ghost predicate Recognisable(answer: Option<Page>, recheck: Option<TransferFile>, intent: CreateIntent, marker: bool) {
    SeenTwice(answer, recheck, intent, marker) && ValidFile(recheck.value) && recheck.value.version.Some?
  }

  /** The only file of the answer does not fit the intent, at once or when it is read back. */
  ghost predicate Mismatch(answer: Option<Page>, recheck: Option<TransferFile>, intent: CreateIntent, marker: bool) {
    && Single(answer, intent.parentId)
    && var f := answer.value.files[0];
       || !(SameContent(f, intent) && (marker ==> Matches(f, intent)))
       || (ReadBack(recheck, f.id) && !(SameContent(recheck.value, intent) && (marker ==> Matches(recheck.value, intent))))
  }

  /** `reconcile_create`. The answers are those the provider gives to the marker query, the
      name query and the metadata read, in that order. Each of the six answers comes back
      exactly under its own condition; everything else is an error. */
  method ReconcileCreate(intent: CreateIntent, byMarker: Option<Page>, byName: Option<Page>, recheck: Option<TransferFile>)
    returns (r: Result<Reconciliation, TransferError>)
    requires intent.size < U64
    // A permit is given exactly when both queries came back complete and empty.
    ensures r == Ok(AbsentFile(intent)) <==> Empty(byMarker, intent.parentId) && Empty(byName, intent.parentId)
    ensures r.Ok? && r.value.AbsentFile? ==> r.value.permit == intent
    // An existing file is recognised exactly when it was seen alone and read back with equal content.
    ensures r.Ok? && r.value.VerifiedExisting? <==>
              || Recognisable(byMarker, recheck, intent, true)
              || (Empty(byMarker, intent.parentId) && Recognisable(byName, recheck, intent, false))
    ensures r.Ok? && r.value.VerifiedExisting? ==>
              && Describes(r.value.remote, recheck.value)
              && r.value.remote.sha256 == intent.sha256 && r.value.remote.size == intent.size
    ensures r == Ok(NeedsReconcile(OperationMarkerMismatch)) <==> Mismatch(byMarker, recheck, intent, true)
    ensures r == Ok(NeedsReconcile(ExistingDifferent)) <==> Empty(byMarker, intent.parentId) && Mismatch(byName, recheck, intent, false)
    ensures r == Ok(NeedsReconcile(DuplicateOperationMarker)) <==> Usable(byMarker, intent.parentId) && |byMarker.value.files| > 1
    ensures r == Ok(NeedsReconcile(DuplicateName)) <==>
              Empty(byMarker, intent.parentId) && Usable(byName, intent.parentId) && |byName.value.files| > 1
    // A query that failed is an error with the reason of that query.
    ensures byMarker.None? ==> r == Err(Transport)
    ensures byMarker.Some? && (byMarker.value.incomplete || byMarker.value.hasNext) ==> r == Err(AmbiguousRemote)
  {
    var marked := QueryFiles(byMarker, intent.parentId);
    if marked.Err? { return Err(marked.error); }
    if |marked.value| == 1 {
      var file := marked.value[0];
      if Matches(file, intent) {
        r := Recheck(intent, file, recheck, true, OperationMarkerMismatch);
        return;
      }
      return Ok(NeedsReconcile(OperationMarkerMismatch));
    }
    if |marked.value| > 1 { return Ok(NeedsReconcile(DuplicateOperationMarker)); }
    var named := QueryFiles(byName, intent.parentId);
    if named.Err? { return Err(named.error); }
    if |named.value| == 0 { return Ok(AbsentFile(intent)); }
    if |named.value| > 1 { return Ok(NeedsReconcile(DuplicateName)); }
    if SameContent(named.value[0], intent) {
      r := Recheck(intent, named.value[0], recheck, false, ExistingDifferent);
      return;
    }
    return Ok(NeedsReconcile(ExistingDifferent));
  }

  /** A create whose completion reply was lost: the retry finds the file by its marker, whatever
      the name query would say, and finishes without a second create. */
  method RetryAfterLostReply(intent: CreateIntent, id: string, version: string, byName: Option<Page>) returns (r: Result<Reconciliation, TransferError>)
    requires intent.size < U64 && ValidVersion(version)
    ensures r.Ok? && r.value.VerifiedExisting? && r.value.remote.fileId == id && r.value.remote.providerVersion == version
  {
    var file := CreatedFile(intent, id, Some(version), true);
    MatchesExactly(file, intent);
    var answer := Some(Page([file], false, false));
    assert Recognisable(answer, Some(file), intent, true);
    r := ReconcileCreate(intent, answer, byName, Some(file));
  }

  ghost predicate Kept(recheck: Option<TransferFile>, intent: CreateIntent, marker: bool) {
    recheck.Some? && if marker then Matches(recheck.value, intent) else SameContent(recheck.value, intent)
  }

  /** Reads the found file back before naming it. */
  method Recheck(intent: CreateIntent, file: TransferFile, recheck: Option<TransferFile>, marker: bool, otherwise: Reason)
    returns (r: Result<Reconciliation, TransferError>)
    requires intent.size < U64
    ensures r.Ok? <==> ReadBack(recheck, file.id) && (!Kept(recheck, intent, marker) || recheck.value.version.Some?)
    ensures r.Ok? ==> if Kept(recheck, intent, marker) then r.value.VerifiedExisting? else r.value == NeedsReconcile(otherwise)
    ensures r.Ok? && r.value.VerifiedExisting? ==>
              && recheck.Some? && recheck.value.id == file.id && (if marker then Matches(recheck.value, intent) else SameContent(recheck.value, intent))
              && Describes(r.value.remote, recheck.value) && r.value.remote.sha256 == intent.sha256 && r.value.remote.size == intent.size
  {
    var again := RecheckExisting(recheck, file.id, intent, marker);
    if again.Err? { return Err(again.error); }
    if again.value.None? { return Ok(NeedsReconcile(otherwise)); }
    var described := DescribeObject(again.value.value, intent, marker);
    if described.Err? { return Err(described.error); }
    return Ok(VerifiedExisting(described.value));
  }

  /** `require_unique_created_match` */
  predicate UniqueCreated(files: seq<TransferFile>, intent: CreateIntent, created: RemoteObject) {
    |files| == 1 && files[0].id == created.fileId && Matches(files[0], intent)
  }

  /** `verify_created_upload`: success means that each query, when it was asked, matched exactly
      the created file, and that reading it back still does, at no lower version. */
  method VerifyCreatedUpload(intent: CreateIntent, created: RemoteObject, byMarker: Option<Page>, byName: Option<Page>,
                             recheck: Option<TransferFile>) returns (r: Result<RemoteObject, TransferError>)
    requires intent.size < U64
    ensures r.Ok? <==>
              && Usable(byMarker, intent.parentId) && UniqueCreated(byMarker.value.files, intent, created)
              && Usable(byName, intent.parentId) && UniqueCreated(byName.value.files, intent, created)
              && recheck.Some? && ValidFile(recheck.value) && recheck.value.id == created.fileId && Matches(recheck.value, intent)
              && recheck.value.version.Some? && ValidVersion(created.providerVersion)
              && NotRegressed(created.providerVersion, recheck.value.version.value)
    ensures r.Ok? ==> Describes(r.value, recheck.value) && r.value.fileId == created.fileId
  {
    var marked := QueryFiles(byMarker, intent.parentId);
    if marked.Err? { return Err(marked.error); }
    if !UniqueCreated(marked.value, intent, created) { return Err(AmbiguousRemote); }
    var named := QueryFiles(byName, intent.parentId);
    if named.Err? { return Err(named.error); }
    if !UniqueCreated(named.value, intent, created) { return Err(AmbiguousRemote); }
    var again := RecheckExisting(recheck, created.fileId, intent, true);
    if again.Err? { return Err(again.error); }
    if again.value.None? { return Err(RevisionMismatch); }
    var described := DescribeObject(again.value.value, intent, true);
    if described.Err? { return Err(described.error); }
    if !ValidVersion(created.providerVersion) { return Err(MalformedResponse); }
    if !NotRegressed(created.providerVersion, described.value.providerVersion) { return Err(RevisionMismatch); }
    return described;
  }

  // ----- The protocol

  /** `Holding` is a client with a live upload session. A permit is used up by initiating. */
  datatype Phase = Idle | MarkerClear | Permitted | Holding(session: nat) | Settled

  /** Provider files by id, and upload sessions with the file each one has created. */
  datatype World = World(files: map<string, TransferFile>, sessions: map<nat, Option<string>>, phase: Phase)

  ghost function Carriers(files: map<string, TransferFile>, intent: CreateIntent): set<string> {
    set id | id in files && !files[id].trashed && Marked(files[id], intent)
  }

  /** What the two queries of a client are about. */
  function AboutMarker(intent: CreateIntent): TransferFile -> bool {
    (f: TransferFile) => Marked(f, intent)
  }

  function AboutName(intent: CreateIntent): TransferFile -> bool {
    (f: TransferFile) => f.name == intent.name
  }

  /** A usable answer of the provider lists every live file of the folder that the query is about. */
  ghost predicate TrueAnswer(files: map<string, TransferFile>, parentId: string, wanted: TransferFile -> bool, answer: Option<Page>) {
    Usable(answer, parentId) ==>
      forall id :: id in files && !files[id].trashed && files[id].parents == [parentId] && wanted(files[id]) ==> files[id] in answer.value.files
  }

  /** The marker query of a client without a session. */
  ghost predicate AskMarker(intent: CreateIntent, s: World, t: World, answer: Option<Page>) {
    && s.phase == Idle && TrueAnswer(s.files, intent.parentId, AboutMarker(intent), answer)
    && t == s.(phase := if Empty(answer, intent.parentId) then MarkerClear else Idle)
  }

  ghost predicate AskName(intent: CreateIntent, s: World, t: World, answer: Option<Page>) {
    && s.phase == MarkerClear && TrueAnswer(s.files, intent.parentId, AboutName(intent), answer)
    && t == s.(phase := if Empty(answer, intent.parentId) then Permitted else Idle)
  }

  /** `initiate_resumable_create`: the provider opens a session; without the reply the client
      never learns its address. */
  ghost predicate Initiate(s: World, t: World, session: nat, lost: bool) {
    && s.phase == Permitted && session !in s.sessions
    && t == World(s.files, s.sessions[session := None], if lost then Idle else Holding(session))
  }

  /** The provider has all bytes of a session and makes the file. */
  ghost predicate Creates(intent: CreateIntent, s: World, t: World, session: nat, id: string, file: TransferFile, phase: Phase) {
    && session in s.sessions && s.sessions[session] == None && id !in s.files
    && file.id == id && Matches(file, intent)
    && t == World(s.files[id := file], s.sessions[session := Some(id)], phase)
  }

  /** A chunk or a status query of the held session; it may complete the file, and its reply
      may settle the client or be lost. */
  ghost predicate Transfer(intent: CreateIntent, s: World, t: World, id: string, file: TransferFile, settled: bool) {
    && s.phase.Holding?
    && var phase := if settled then Settled else s.phase;
    && (Creates(intent, s, t, s.phase.session, id, file, phase) ||
        (t == s.(phase := phase) && (settled ==> s.phase.session in s.sessions && s.sessions[s.phase.session].Some?)))
  }

  /** A restart, or a client that gives up. */
  ghost predicate Forget(s: World, t: World) {
    t == s.(phase := Idle)
  }

  /** Whatever others do: they neither hand out the marker, nor revive or move a file that has it. */
  ghost predicate Others(intent: CreateIntent, s: World, t: World) {
    && t.sessions == s.sessions && t.phase == s.phase && Carriers(t.files, intent) <= Carriers(s.files, intent)
    && forall id :: id in Carriers(t.files, intent) ==> t.files[id].parents == s.files[id].parents
  }

  ghost predicate Step(intent: CreateIntent, s: World, t: World) {
    || (exists answer :: AskMarker(intent, s, t, answer))
    || (exists answer :: AskName(intent, s, t, answer))
    || (exists session, lost :: Initiate(s, t, session, lost))
    || (exists id, file, settled :: Transfer(intent, s, t, id, file, settled))
    || Forget(s, t)
    || Others(intent, s, t)
  }

  ghost predicate Inv(intent: CreateIntent, s: World) {
    var carriers := Carriers(s.files, intent);
    && (forall id :: id in carriers ==> s.files[id].parents == [intent.parentId])
    && (forall a, b :: a in carriers && b in carriers ==> a == b)
    && (s.phase.MarkerClear? || s.phase.Permitted? ==> carriers == {})
    && (s.phase.Holding? ==> s.phase.session in s.sessions &&
                             match s.sessions[s.phase.session]
                             case None => carriers == {}
                             case Some(id) => carriers <= {id})
  }

  lemma AskKeeps(intent: CreateIntent, s: World, t: World, answer: Option<Page>)
    requires Inv(intent, s) && (AskMarker(intent, s, t, answer) || AskName(intent, s, t, answer))
    ensures Inv(intent, t)
  {
  }

  lemma CreateAdds(intent: CreateIntent, s: World, t: World, session: nat, id: string, file: TransferFile, phase: Phase)
    requires Creates(intent, s, t, session, id, file, phase)
    ensures Carriers(t.files, intent) == Carriers(s.files, intent) + {id}
  {
  }

  lemma TransferKeeps(intent: CreateIntent, s: World, t: World, id: string, file: TransferFile, settled: bool)
    requires Inv(intent, s) && Transfer(intent, s, t, id, file, settled)
    ensures Inv(intent, t)
  {
    var phase := if settled then Settled else s.phase;
    if Creates(intent, s, t, s.phase.session, id, file, phase) {
      CreateAdds(intent, s, t, s.phase.session, id, file, phase);
    }
  }

  lemma StepKeeps(intent: CreateIntent, s: World, t: World)
    requires Inv(intent, s) && Step(intent, s, t)
    ensures Inv(intent, t)
  {
    if answer :| AskMarker(intent, s, t, answer) || AskName(intent, s, t, answer) {
      AskKeeps(intent, s, t, answer);
    } else if id, file, settled :| Transfer(intent, s, t, id, file, settled) {
      TransferKeeps(intent, s, t, id, file, settled);
    }
  }

  /** In every run that starts without the marker, at most one live file carries it, whatever
      replies are lost and wherever the client restarts. */
  lemma {:induction false} AtMostOneCarrier(intent: CreateIntent, run: seq<World>, k: nat)
    requires k < |run| && run[0].phase == Idle && Carriers(run[0].files, intent) == {}
    requires forall i :: 0 <= i < |run| - 1 ==> Step(intent, run[i], run[i + 1])
    ensures Inv(intent, run[k]) && forall a, b :: a in Carriers(run[k].files, intent) && b in Carriers(run[k].files, intent) ==> a == b
  {
    if k > 0 {
      AtMostOneCarrier(intent, run, k - 1);
      StepKeeps(intent, run[k - 1], run[k]);
    }
  }

  /** A request that takes effect after its session was given up. */
  ghost predicate Late(intent: CreateIntent, s: World, t: World, session: nat, id: string, file: TransferFile) {
    s.phase != Holding(session) && Creates(intent, s, t, session, id, file, s.phase)
  }

  /** Without the assumption on late requests two files end up with the marker. */
  lemma LateRequestDuplicates(intent: CreateIntent, a: TransferFile, b: TransferFile) returns (run: seq<World>)
    requires a.id != b.id && Matches(a, intent) && Matches(b, intent)
    ensures |run| > 0 && run[0] == World(map[], map[], Idle)
    ensures forall i :: 0 <= i < |run| - 1 ==> Step(intent, run[i], run[i + 1]) || Late(intent, run[i], run[i + 1], 0, a.id, a)
    ensures {a.id, b.id} <= Carriers(run[|run| - 1].files, intent)
  {
    var empty := Some(Page([], false, false));
    var w0 := World(map[], map[], Idle);
    var w1, w2 := w0.(phase := MarkerClear), w0.(phase := Permitted);
    var w3 := World(map[], map[0 := None], Holding(0));
    var w4 := w3.(phase := Idle);
    var w5, w6 := w4.(phase := MarkerClear), w4.(phase := Permitted);
    var w7 := World(map[], map[0 := None, 1 := None], Holding(1));
    var w8 := World(map[a.id := a], map[0 := Some(a.id), 1 := None], Holding(1));
    var w9 := World(map[a.id := a, b.id := b], map[0 := Some(a.id), 1 := Some(b.id)], Holding(1));
    assert Empty(empty, intent.parentId);
    assert AskMarker(intent, w0, w1, empty) && AskName(intent, w1, w2, empty) && Initiate(w2, w3, 0, false);
    assert Forget(w3, w4) && AskMarker(intent, w4, w5, empty) && AskName(intent, w5, w6, empty);
    assert w7.sessions == w6.sessions[1 := None];
    assert Initiate(w6, w7, 1, false);
    assert w8.sessions == w7.sessions[0 := Some(a.id)] && w8.files == w7.files[a.id := a];
    assert Late(intent, w7, w8, 0, a.id, a);
    assert w9.sessions == w8.sessions[1 := Some(b.id)] && w9.files == w8.files[b.id := b];
    assert Transfer(intent, w8, w9, b.id, b, false);
    run := [w0, w1, w2, w3, w4, w5, w6, w7, w8, w9];
  }

  // ----- A verified upload

  /** The live files of the folder that a query is about. */
  ghost function InFolder(files: map<string, TransferFile>, parentId: string, wanted: TransferFile -> bool): set<string> {
    set id | id in files && !files[id].trashed && files[id].parents == [parentId] && wanted(files[id])
  }

  /** A usable answer lists exactly those files. */
  ghost predicate ExactAnswer(files: map<string, TransferFile>, parentId: string, wanted: TransferFile -> bool, answer: Option<Page>) {
    Usable(answer, parentId) ==>
      && (forall id :: id in InFolder(files, parentId, wanted) ==> files[id] in answer.value.files)
      && (forall f :: f in answer.value.files ==> f.id in InFolder(files, parentId, wanted) && files[f.id] == f)
  }

  lemma OnlyOneAsked(intent: CreateIntent, created: RemoteObject, files: map<string, TransferFile>, answer: Option<Page>, wanted: TransferFile -> bool)
    requires Usable(answer, intent.parentId) && UniqueCreated(answer.value.files, intent, created)
    requires ExactAnswer(files, intent.parentId, wanted, answer) && forall id :: id in files ==> files[id].id == id
    ensures InFolder(files, intent.parentId, wanted) == {created.fileId}
  {
    var only := answer.value.files[0];
    assert only in answer.value.files;
    forall id | id in InFolder(files, intent.parentId, wanted) ensures id == created.fileId {
      assert files[id] in answer.value.files;
    }
  }

  /** When the answers were exact, a successfully verified upload was, at the moment of each
      query, the only live file of its folder with the marker and the only one with the name; and
      in a run that started without the marker it was the only carrier anywhere. */
  method VerifyUnique(intent: CreateIntent, created: RemoteObject, byMarker: Option<Page>, byName: Option<Page>, recheck: Option<TransferFile>,
                      ghost atMarker: World, ghost atName: World) returns (r: Result<RemoteObject, TransferError>)
    requires intent.size < U64
    requires forall id :: id in atMarker.files ==> atMarker.files[id].id == id
    requires forall id :: id in atName.files ==> atName.files[id].id == id
    requires ExactAnswer(atMarker.files, intent.parentId, AboutMarker(intent), byMarker)
    requires ExactAnswer(atName.files, intent.parentId, AboutName(intent), byName)
    ensures r.Ok? ==> r.value.fileId == created.fileId
    ensures r.Ok? ==> InFolder(atMarker.files, intent.parentId, AboutMarker(intent)) == {created.fileId}
    ensures r.Ok? ==> InFolder(atName.files, intent.parentId, AboutName(intent)) == {created.fileId}
    ensures r.Ok? && Inv(intent, atMarker) ==> Carriers(atMarker.files, intent) == {created.fileId}
  {
    r := VerifyCreatedUpload(intent, created, byMarker, byName, recheck);
    if r.Ok? {
      OnlyOneAsked(intent, created, atMarker.files, byMarker, AboutMarker(intent));
      OnlyOneAsked(intent, created, atName.files, byName, AboutName(intent));
      assert Inv(intent, atMarker) ==> Carriers(atMarker.files, intent) == InFolder(atMarker.files, intent.parentId, AboutMarker(intent));
    }
  }
}
