// crates/myvault-drive/src/transfer.rs: provider files, create intents and what a file has to
// show to match one.

module Transfers {
  import opened Wrappers
  import opened Encoding

  datatype Properties = Properties(operation: Option<string>, sha256: Option<string>, size: Option<string>)

  /** `wellFormed` stands for the syntactic checks on identifiers, names and MIME types. */
  datatype TransferFile = TransferFile(id: string, name: string, mimeType: string, parents: seq<string>, trashed: bool,
                                       version: Option<string>, size: Option<string>, sha256: Option<string>,
                                       properties: Option<Properties>, wellFormed: bool)

  datatype CreateIntent = CreateIntent(parentId: string, name: string, mimeType: string, marker: string, sha256: string, size: nat)

  datatype RemoteObject = RemoteObject(fileId: string, providerVersion: string, syncRevision: string, sha256: string, size: nat)

  datatype TransferError =
    | InvalidInput | Transport | RedirectRejected | RangeRejected | SessionExpired | ProviderRefused
    | MalformedResponse | RevisionMismatch | ExistingDifferentContent | AmbiguousRemote

  predicate ValidSize(text: string) {
    ParseU64(text).Some?
  }

  /** `validate_transfer_file` */
  predicate ValidFile(f: TransferFile) {
    && f.wellFormed && |f.parents| <= 1
    && (f.version.Some? ==> ValidVersion(f.version.value))
    && (f.size.Some? ==> ValidSize(f.size.value))
    && (f.properties.Some? && f.properties.value.size.Some? ==> ValidSize(f.properties.value.size.value))
  }

  /** `file_has_same_content` */
  predicate SameContent(f: TransferFile, intent: CreateIntent) {
    && !f.trashed && f.name == intent.name && f.mimeType == intent.mimeType && f.parents == [intent.parentId]
    && f.sha256 == Some(intent.sha256) && f.size == Some(Decimal(intent.size))
  }

  /** The file carries the operation marker of the intent. */
  predicate Marked(f: TransferFile, intent: CreateIntent) {
    f.properties.Some? && f.properties.value.operation == Some(intent.marker)
  }

  /** `file_matches_intent` */
  predicate Matches(f: TransferFile, intent: CreateIntent) {
    && SameContent(f, intent) && Marked(f, intent)
    && f.properties.value.sha256 == Some(intent.sha256) && f.properties.value.size == Some(Decimal(intent.size))
  }

  /** The file the provider makes from the metadata of `initiate_resumable_create` and a stream
      with the digest and the length of the intent. */
  function CreatedFile(intent: CreateIntent, id: string, version: Option<string>, wellFormed: bool): TransferFile {
    var size := Some(Decimal(intent.size));
    TransferFile(id, intent.name, intent.mimeType, [intent.parentId], false, version, size, Some(intent.sha256),
                 Some(Properties(Some(intent.marker), Some(intent.sha256), size)), wellFormed)
  }

  /** A file matches an intent exactly when it is, up to id and version, the file the intent
      creates; and it has the same content exactly when that is so up to its properties. */
  lemma MatchesExactly(f: TransferFile, intent: CreateIntent)
    ensures Matches(f, intent) <==> f == CreatedFile(intent, f.id, f.version, f.wellFormed)
    ensures SameContent(f, intent) <==> f == CreatedFile(intent, f.id, f.version, f.wellFormed).(properties := f.properties)
    ensures intent.size < U64 && f == CreatedFile(intent, f.id, f.version, true) && (f.version.Some? ==> ValidVersion(f.version.value)) ==> ValidFile(f)
  {
    if f == CreatedFile(intent, f.id, f.version, f.wellFormed) {
      assert Matches(f, intent);
      if intent.size < U64 {
        DecimalShape(intent.size);
        ParsePlain(Decimal(intent.size));
      }
    }
  }

  /** The object names the file and describes content the file really has. */
  ghost predicate Describes(o: RemoteObject, f: TransferFile) {
    && o.fileId == f.id && Some(o.sha256) == f.sha256 && f.size.Some? && ParseU64(f.size.value) == Some(o.size)
    && f.version == Some(o.providerVersion) && Encode(o.providerVersion) == Some(o.syncRevision)
  }

  /** `remote_object` and `remote_object_same_content`: they differ only in the match they ask for. */
  method DescribeObject(f: TransferFile, intent: CreateIntent, marker: bool) returns (r: Result<RemoteObject, TransferError>)
    requires intent.size < U64
    ensures r.Ok? <==> (if marker then Matches(f, intent) else SameContent(f, intent)) && f.version.Some? && ValidVersion(f.version.value)
    ensures r.Ok? ==> Describes(r.value, f) && r.value.size == intent.size && r.value.sha256 == intent.sha256
    ensures r == Err(ExistingDifferentContent) <==> !(if marker then Matches(f, intent) else SameContent(f, intent))
  {
    if (marker && !Matches(f, intent)) || (!marker && !SameContent(f, intent)) {
      return Err(ExistingDifferentContent);
    }
    if f.version.None? {
      return Err(MalformedResponse);
    }
    var version := f.version.value;
    if !ValidVersion(version) {
      return Err(InvalidInput);
    }
    var revision := Encode(version);
    DecimalShape(intent.size);
    ParsePlain(Decimal(intent.size));
    return Ok(RemoteObject(f.id, version, revision.value, intent.sha256, intent.size));
  }

  /** `recheck_existing`, given what the exact metadata read answered. */
  method RecheckExisting(answer: Option<TransferFile>, fileId: string, intent: CreateIntent, marker: bool)
    returns (r: Result<Option<TransferFile>, TransferError>)
    ensures r.Ok? <==> answer.Some? && ValidFile(answer.value) && answer.value.id == fileId
    ensures r.Err? ==> r.error == if answer.None? then Transport else MalformedResponse
    ensures r.Ok? ==> answer.value.wellFormed && |answer.value.parents| <= 1 && (answer.value.version.Some? ==> ValidVersion(answer.value.version.value))
    ensures r.Ok? ==> r.value == if (if marker then Matches(answer.value, intent) else SameContent(answer.value, intent)) then answer else None
  {
    if answer.None? {
      return Err(Transport);
    }
    if !ValidFile(answer.value) || answer.value.id != fileId {
      return Err(MalformedResponse);
    }
    var matches := if marker then Matches(answer.value, intent) else SameContent(answer.value, intent);
    return Ok(if matches then answer else None);
  }
}
