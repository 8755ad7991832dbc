// crates/myvault-drive/src/transfer.rs: the resumable upload of one file in chunks, with replies
// that may be lost.

module Uploads {
  import opened Wrappers
  import opened Encoding
  import opened Transfers

  const CHUNK_ALIGNMENT := 256 * 1024
  const RESUMABLE_UPLOAD_CHUNK_BYTES := 8 * 1024 * 1024

  // ----- Planning

  datatype Plan = Plan(offset: nat, byteLen: nat, end: nat)

  /** `plan_resumable_upload_chunk` */
  function PlanChunk(total: nat, next: nat): Option<Plan> {
    if next > total || (total != 0 && next == total) then None
    else
      var byteLen := Min(total - next, RESUMABLE_UPLOAD_CHUNK_BYTES);
      if next + byteLen >= U64 then None else Some(Plan(next, byteLen, next + byteLen))
  }

  /** The guard of `upload_chunk`. */
  predicate ChunkAccepted(size: nat, next: nat, length: nat) {
    && length <= RESUMABLE_UPLOAD_CHUNK_BYTES && next + length < U64 && next + length <= size
    && (next + length < size ==> length > 0 && length % CHUNK_ALIGNMENT == 0)
    && (size != 0 ==> length > 0)
  }

  /** For every size and offset: planning succeeds exactly while something is left to send, and
      every planned chunk passes the guard. */
  lemma PlanPassesGuard(total: nat, next: nat)
    requires total < U64
    ensures PlanChunk(total, next).Some? <==> next < total || (total == 0 && next == 0)
    ensures PlanChunk(total, next).Some? ==>
              var p := PlanChunk(total, next).value;
              p.offset == next && p.end == next + p.byteLen <= total && ChunkAccepted(total, next, p.byteLen)
  {
    assert RESUMABLE_UPLOAD_CHUNK_BYTES % CHUNK_ALIGNMENT == 0;
  }

  /** A non-empty session whose offset has reached the size accepts no chunk at all. */
  lemma StuckAtTheEnd(size: nat)
    requires 0 < size < U64
    ensures PlanChunk(size, size).None? && forall length: nat :: !ChunkAccepted(size, size, length)
  {
  }

  /** Following the plan from the start tiles the file: chunks join up and end at the size. */
  method PlanAll(total: nat) returns (plans: seq<Plan>)
    requires total < U64
    ensures plans != [] && plans[0].offset == 0 && plans[|plans| - 1].end == total
    ensures forall i :: 0 <= i < |plans| - 1 ==> plans[i].end == plans[i + 1].offset && plans[i].byteLen == RESUMABLE_UPLOAD_CHUNK_BYTES
    ensures forall i :: 0 <= i < |plans| ==> ChunkAccepted(total, plans[i].offset, plans[i].byteLen)
  {
    PlanPassesGuard(total, 0);
    var first := PlanChunk(total, 0).value;
    plans := [first];
    var next := first.end;
    while next < total
      invariant plans != [] && plans[0].offset == 0 && plans[|plans| - 1].end == next <= total
      invariant next < total ==> plans[|plans| - 1].byteLen == RESUMABLE_UPLOAD_CHUNK_BYTES
      invariant forall i :: 0 <= i < |plans| - 1 ==> plans[i].end == plans[i + 1].offset && plans[i].byteLen == RESUMABLE_UPLOAD_CHUNK_BYTES
      invariant forall i :: 0 <= i < |plans| ==> ChunkAccepted(total, plans[i].offset, plans[i].byteLen)
      decreases total - next
    {
      PlanPassesGuard(total, next);
      var plan := PlanChunk(total, next).value;
      plans := plans + [plan];
      next := plan.end;
    }
  }

  // ----- Headers

  /** The value of a Content-Range header (section 14.4 of RFC 9110). */
  function ContentRange(size: nat, next: nat, end: nat): string
    requires size == 0 || 0 < end
  {
    if size == 0 then "bytes */0"
    else "bytes " + Decimal(next) + "-" + Decimal(end - 1) + "/" + Decimal(size)
  }

  /** What a server reads from the value of a Content-Range header: a range with its first and
      last byte, or none, and the complete length. */
  datatype RangeOf = Bytes(first: nat, last: nat, size: nat) | NoBytes(size: nat)

  /** The text before and after the first `c`. */
  function Cut(s: string, c: char): Option<(string, string)> {
    if s == "" then None
    else if s[0] == c then Some(("", s[1..]))
    else
      match Cut(s[1..], c)
      case None => None
      case Some(parts) => Some(([s[0]] + parts.0, parts.1))
  }

  function ReadContentRange(value: string): Option<RangeOf> {
    var unit := "bytes ";
    if !(unit <= value) then None
    else match Cut(value[|unit|..], '/')
      case None => None
      case Some((range, size)) =>
        if ParseU64(size).None? then None
        else if range == "*" then Some(NoBytes(ParseU64(size).value))
        else match Cut(range, '-')
          case None => None
          case Some((first, last)) =>
            if ParseU64(first).None? || ParseU64(last).None? then None
            else Some(Bytes(ParseU64(first).value, ParseU64(last).value, ParseU64(size).value))
  }

  lemma {:induction false} CutAt(a: string, c: char, b: string)
    requires c !in a
    ensures Cut(a + [c] + b, c) == Some((a, b))
  {
    var s := a + [c] + b;
    if a == "" {
      assert s[1..] == b;
    } else {
      assert s[1..] == a[1..] + [c] + b;
      CutAt(a[1..], c, b);
      assert [a[0]] + a[1..] == a;
    }
  }

  lemma DecimalReads(v: nat)
    requires v < U64
    ensures ParseU64(Decimal(v)) == Some(v) && '-' !in Decimal(v) && '/' !in Decimal(v) && Decimal(v) != ""
  {
    DecimalShape(v);
    ParsePlain(Decimal(v));
  }

  /** Every header of a chunk is read back as the bytes it is about: the first and the last of
      them and the length of the whole file; an empty file announces no bytes. */
  lemma ContentRangeReadBack(size: nat, next: nat, end: nat)
    requires size < U64 && (size == 0 || next < end <= size)
    ensures ReadContentRange(ContentRange(size, next, end)) == Some(if size == 0 then NoBytes(0) else Bytes(next, end - 1, size))
  {
    if size == 0 {
      StatusRangeReadBack(0);
      assert Decimal(0) == "0";
      assert ContentRange(size, next, end) == StatusRange(0);
    } else {
      DecimalReads(size);
      DecimalReads(next);
      DecimalReads(end - 1);
      assert ContentRange(size, next, end) == "bytes " + (Decimal(next) + ['-'] + Decimal(end - 1) + ['/'] + Decimal(size));
      ReadParts(Decimal(next), Decimal(end - 1), Decimal(size));
    }
  }

  lemma ReadParts(first: string, last: string, size: string)
    requires '-' !in first && '/' !in first && '/' !in last
    requires ParseU64(first).Some? && ParseU64(last).Some? && ParseU64(size).Some?
    ensures ReadContentRange("bytes " + (first + ['-'] + last + ['/'] + size)) ==
            Some(Bytes(ParseU64(first).value, ParseU64(last).value, ParseU64(size).value))
  {
    var unit, range := "bytes ", first + ['-'] + last;
    var value := unit + (range + ['/'] + size);
    assert value[|unit|..] == range + ['/'] + size;
    CutAt(range, '/', size);
    CutAt(first, '-', last);
    assert range[|first|] == '-';
  }

  /** The value of the header of a status query. */
  function StatusRange(size: nat): string {
    "bytes */" + Decimal(size)
  }

  lemma StatusRangeReadBack(size: nat)
    requires size < U64
    ensures ReadContentRange(StatusRange(size)) == Some(NoBytes(size))
  {
    var unit := "bytes ";
    DecimalReads(size);
    assert StatusRange(size) == unit + ("*" + ['/'] + Decimal(size));
    assert StatusRange(size)[|unit|..] == "*" + ['/'] + Decimal(size);
    CutAt("*", '/', Decimal(size));
  }

  /** How a server reports the contiguous bytes it has stored. */
  function RangeHeader(stored: nat): Option<string> {
    if stored == 0 then None else Some("bytes=0-" + Decimal(stored - 1))
  }

  /** `parse_resume_range`; a missing or unreadable header means nothing is stored. */
  function ParseResumeRange(header: Option<string>): Option<nat> {
    match header
    case None => Some(0)
    case Some(value) =>
      var prefix := "bytes=0-";
      if !(prefix <= value) then None
      else match ParseU64(value[|prefix|..])
        case None => None
        case Some(end) => if end + 1 < U64 then Some(end + 1) else None
  }

  /** Only headers of this form are read; `n` bytes from the start are stored then. */
  lemma ResumeRangeForm(value: string, n: nat)
    requires ParseResumeRange(Some(value)) == Some(n)
    ensures 0 < n < U64 && "bytes=0-" <= value && ParseU64(value[8..]) == Some(n - 1)
  {
  }

  /** What a server reports is what the client reads. */
  lemma RangeRoundTrip(stored: nat)
    requires stored < U64
    ensures ParseResumeRange(RangeHeader(stored)) == Some(stored)
  {
    if stored > 0 {
      var prefix := "bytes=0-";
      var digits := Decimal(stored - 1);
      assert (prefix + digits)[|prefix|..] == digits;
      DecimalShape(stored - 1);
      ParsePlain(digits);
    }
  }

  // ----- The session

  /** What came back from one PUT. `recheck` is the answer to the metadata read that follows a
      finished upload. */
  datatype Reply =
    | Lost
    | ResumeIncomplete(range: Option<string>)
    | Redirect
    | Gone
    | Refused
    | Finished(file: TransferFile, recheck: Option<TransferFile>)
    | Unreadable

  datatype Progress = InProgress(next: nat) | Complete(remote: RemoteObject)

  /** The new offset a 308 reply leads to, if it is acceptable. `sent` is the submitted range. */
  function ResumeAt(size: nat, next: nat, sent: Option<(nat, nat)>, range: Option<string>): Option<nat> {
    match ParseResumeRange(range)
    case None => None
    case Some(at) =>
      if at > size || at < next || (sent.Some? && (at <= sent.value.0 || at > sent.value.1)) then None else Some(at)
  }

  class UploadSession {
    const intent: CreateIntent
    var nextOffset: nat

    ghost predicate Valid()
      reads this
    {
      nextOffset <= intent.size < U64
    }

    constructor (intent: CreateIntent)
      requires intent.size < U64
      ensures Valid() && nextOffset == 0 && this.intent == intent
    {
      this.intent := intent;
      nextOffset := 0;
    }

    /** `decode_upload_response` */
    method DecodeResponse(reply: Reply, sent: Option<(nat, nat)>) returns (r: Result<Progress, TransferError>)
      requires Valid()
      modifies this`nextOffset
      ensures Valid() && old(nextOffset) <= nextOffset
      ensures r.Err? ==> nextOffset == old(nextOffset)
      ensures reply.ResumeIncomplete? ==>
                var at := ResumeAt(intent.size, old(nextOffset), sent, reply.range);
                r == (if at.Some? then Ok(InProgress(at.value)) else Err(RangeRejected)) && (at.Some? ==> nextOffset == at.value)
      ensures r.Ok? && r.value.InProgress? ==> reply.ResumeIncomplete?
      // Success is reported exactly for a file that matched the intent in the reply and again
      // when it was read back, at a version that did not go down.
      ensures r.Ok? && r.value.Complete? <==> Confirmed(intent, reply)
      ensures r.Ok? && r.value.Complete? ==> nextOffset == intent.size && Describes(r.value.remote, reply.recheck.value)
      ensures Refusal(reply).Some? ==> r == Err(Refusal(reply).value)
    {
      match reply {
        case Lost => return Err(Transport);
        case Redirect => return Err(RedirectRejected);
        case Gone => return Err(SessionExpired);
        case Refused => return Err(ProviderRefused);
        case Unreadable => return Err(MalformedResponse);
        case ResumeIncomplete(range) =>
          var parsed := ParseResumeRange(range);
          if parsed.None? { return Err(RangeRejected); }
          var next := parsed.value;
          if next > intent.size || next < nextOffset || (sent.Some? && (next <= sent.value.0 || next > sent.value.1)) {
            return Err(RangeRejected);
          }
          nextOffset := next;
          return Ok(InProgress(next));
        case Finished(file, recheck) =>
          if !ValidFile(file) || !Matches(file, intent) || file.version.None? { return Err(MalformedResponse); }
          var again := RecheckExisting(recheck, file.id, intent, true);
          if again.Err? { return Err(again.error); }
          if again.value.None? { return Err(RevisionMismatch); }
          var verified := again.value.value;
          if verified.version.None? { return Err(MalformedResponse); }
          if !NotRegressed(file.version.value, verified.version.value) { return Err(RevisionMismatch); }
          nextOffset := intent.size;
          var described := DescribeObject(verified, intent, true);
          return Ok(Complete(described.value));
      }
    }

    /** `upload_chunk`: refuses what the guard refuses before anything is sent. `sends` is the
        header of the request that went out, if one did; `reply` is what came back. */
    method UploadChunk(length: nat, reply: Reply) returns (r: Result<Progress, TransferError>, sends: Option<string>)
      requires Valid()
      modifies this`nextOffset
      ensures Valid() && old(nextOffset) <= nextOffset
      ensures r.Err? ==> nextOffset == old(nextOffset)
      // A chunk goes out exactly when it is at most 8 MiB and either ends the file, or ends
      // before that and is a multiple of 256 KiB; only an empty file is sent as no bytes.
      ensures sends.Some? <==>
                && length <= 0x80_0000 && (intent.size == 0 || length > 0)
                && (old(nextOffset) + length == intent.size || (old(nextOffset) + length < intent.size && length % 0x4_0000 == 0))
      ensures sends.Some? <==> ChunkAccepted(intent.size, old(nextOffset), length)
      ensures sends.None? ==> r == Err(InvalidInput)
      // The header says which bytes these are.
      ensures sends.Some? ==> ReadContentRange(sends.value) == Some(
                if intent.size == 0 then NoBytes(0) else Bytes(old(nextOffset), old(nextOffset) + length - 1, intent.size))
      // A 308 to a chunk makes progress, and never beyond what was sent.
      ensures r.Ok? && r.value.InProgress? ==>
                old(nextOffset) < nextOffset == r.value.next <= old(nextOffset) + length <= intent.size
      ensures sends.Some? ==> (r.Ok? && r.value.Complete? <==> Confirmed(intent, reply))
      ensures r.Ok? && r.value.Complete? ==> nextOffset == intent.size && Describes(r.value.remote, reply.recheck.value)
      ensures sends.Some? && reply.ResumeIncomplete? ==>
                r == (match ResumeAt(intent.size, old(nextOffset), Some((old(nextOffset), old(nextOffset) + length)), reply.range)
                      case Some(at) => Ok(InProgress(at))
                      case None => Err(RangeRejected))
      // A true report of any part of what was sent is taken over; other replies have their own errors.
      ensures forall stored: nat {:trigger RangeHeader(stored)} ::
                sends.Some? && old(nextOffset) < stored <= old(nextOffset) + length && reply == ResumeIncomplete(RangeHeader(stored)) ==>
                  r == Ok(InProgress(stored)) && nextOffset == stored
      ensures sends.Some? && Refusal(reply).Some? ==> r == Err(Refusal(reply).value)
    {
      if length > RESUMABLE_UPLOAD_CHUNK_BYTES { return Err(InvalidInput), None; }
      var end := nextOffset + length;
      if end >= U64 { return Err(InvalidInput), None; }
      if end > intent.size || (end < intent.size && (length == 0 || length % CHUNK_ALIGNMENT != 0)) || (intent.size != 0 && length == 0) {
        return Err(InvalidInput), None;
      }
      sends := Some(ContentRange(intent.size, nextOffset, end));
      ContentRangeReadBack(intent.size, nextOffset, end);
      RangesRoundTrip();
      r := DecodeResponse(reply, Some((nextOffset, end)));
    }

    /** `query_upload_status`; `sends` is the header of the query. */
    method QueryStatus(reply: Reply) returns (r: Result<Progress, TransferError>, sends: string)
      requires Valid()
      modifies this`nextOffset
      ensures Valid() && old(nextOffset) <= nextOffset
      ensures r.Err? ==> nextOffset == old(nextOffset)
      ensures r.Ok? && r.value.InProgress? ==> nextOffset == r.value.next
      ensures ReadContentRange(sends) == Some(NoBytes(intent.size))
      // A stuck session is finished by a query whose answer checks out.
      ensures r.Ok? && r.value.Complete? <==> Confirmed(intent, reply)
      ensures r.Ok? && r.value.Complete? ==> nextOffset == intent.size && Describes(r.value.remote, reply.recheck.value)
      ensures reply.ResumeIncomplete? ==>
                r == (match ResumeAt(intent.size, old(nextOffset), None, reply.range)
                      case Some(at) => Ok(InProgress(at))
                      case None => Err(RangeRejected))
      ensures forall stored: nat {:trigger RangeHeader(stored)} ::
                old(nextOffset) <= stored <= intent.size && reply == ResumeIncomplete(RangeHeader(stored)) ==>
                  r == Ok(InProgress(stored)) && nextOffset == stored
      ensures Refusal(reply).Some? ==> r == Err(Refusal(reply).value)
    {
      sends := StatusRange(intent.size);
      StatusRangeReadBack(intent.size);
      RangesRoundTrip();
      r := DecodeResponse(reply, None);
    }
  }

  /** The file of the reply fits the intent, and still does when it is read back, at no lower
      version. */
  ghost predicate Confirmed(intent: CreateIntent, reply: Reply) {
    && reply.Finished? && ValidFile(reply.file) && Matches(reply.file, intent)
    && reply.recheck.Some? && ValidFile(reply.recheck.value) && reply.recheck.value.id == reply.file.id && Matches(reply.recheck.value, intent)
    && NotRegressedFrom(reply.file, reply.recheck.value)
  }

  /** Replies that are neither progress nor a finished file. */
  ghost function Refusal(reply: Reply): Option<TransferError> {
    match reply
    case Lost => Some(Transport)
    case Redirect => Some(RedirectRejected)
    case Gone => Some(SessionExpired)
    case Refused => Some(ProviderRefused)
    case Unreadable => Some(MalformedResponse)
    case _ => None
  }

  lemma RangesRoundTrip()
    ensures forall stored: nat {:trigger RangeHeader(stored)} :: stored < U64 ==> ParseResumeRange(RangeHeader(stored)) == Some(stored)
  {
    forall stored: nat | stored < U64 ensures ParseResumeRange(RangeHeader(stored)) == Some(stored) {
      RangeRoundTrip(stored);
    }
  }

  ghost predicate NotRegressedFrom(before: TransferFile, after: TransferFile) {
    && before.version.Some? && after.version.Some? && ValidVersion(before.version.value) && ValidVersion(after.version.value)
    && NotRegressed(before.version.value, after.version.value)
  }

  datatype Call = SendChunk(length: nat) | AskStatus

  /** Any calls with any replies: the offset never goes down, never passes the size, and grows
      with every chunk the provider acknowledges. */
  method RunSession(session: UploadSession, calls: seq<(Call, Reply)>) returns (offsets: seq<nat>, oks: seq<bool>)
    requires session.Valid()
    modifies session`nextOffset
    ensures session.Valid() && |offsets| == |calls| + 1 && |oks| == |calls|
    ensures offsets[0] == old(session.nextOffset) && offsets[|calls|] == session.nextOffset
    ensures forall i :: 0 <= i < |offsets| ==> offsets[i] <= session.intent.size
    ensures forall i, j :: 0 <= i <= j < |offsets| ==> offsets[i] <= offsets[j]
    ensures forall i :: 0 <= i < |calls| && !oks[i] ==> offsets[i + 1] == offsets[i]
    ensures forall i :: 0 <= i < |calls| && oks[i] && calls[i].0.SendChunk? && calls[i].1.ResumeIncomplete? ==> offsets[i] < offsets[i + 1]
  {
    offsets, oks := [session.nextOffset], [];
    var i := 0;
    while i < |calls|
      invariant 0 <= i <= |calls| && session.Valid() && |offsets| == i + 1 && |oks| == i
      invariant offsets[0] == old(session.nextOffset) && offsets[i] == session.nextOffset
      invariant forall j :: 0 <= j <= i ==> offsets[j] <= session.intent.size
      invariant forall j, k :: 0 <= j <= k <= i ==> offsets[j] <= offsets[k]
      invariant forall j :: 0 <= j < i && !oks[j] ==> offsets[j + 1] == offsets[j]
      invariant forall j :: 0 <= j < i && oks[j] && calls[j].0.SendChunk? && calls[j].1.ResumeIncomplete? ==> offsets[j] < offsets[j + 1]
    {
      var ok;
      match calls[i].0 {
        case SendChunk(length) =>
          var r, _ := session.UploadChunk(length, calls[i].1);
          ok := r.Ok?;
        case AskStatus =>
          var r, _ := session.QueryStatus(calls[i].1);
          ok := r.Ok?;
      }
      offsets, oks := offsets + [session.nextOffset], oks + [ok];
      i := i + 1;
    }
  }

  // ----- Against a server that keeps a prefix and reports it truly

  datatype System = System(next: nat, stored: seq<nat>)

  /** The server has stored `kept` contiguous bytes after a chunk that starts at `next`; it may
      keep any part of what is new. */
  ghost predicate Stores(data: seq<nat>, before: seq<nat>, next: nat, end: nat, after: seq<nat>)
    requires next <= end <= |data|
  {
    || after == before
    || (next <= |before| < |after| <= end && after == before + data[next..end][|before| - next..|after| - next])
  }

  /** Where the client stands after a true report that may have been lost. */
  function After(size: nat, next: nat, sent: Option<(nat, nat)>, stored: nat, delivered: bool): nat {
    if !delivered then next
    else match ResumeAt(size, next, sent, RangeHeader(stored))
      case Some(at) => at
      case None => next
  }

  /** One chunk goes out and its reply, if not lost, reports the true prefix. */
  ghost predicate ChunkStep(data: seq<nat>, s: System, t: System, length: nat, delivered: bool) {
    && ChunkAccepted(|data|, s.next, length) && Stores(data, s.stored, s.next, s.next + length, t.stored)
    && t.next == After(|data|, s.next, Some((s.next, s.next + length)), |t.stored|, delivered)
  }

  ghost predicate QueryStep(data: seq<nat>, s: System, t: System, delivered: bool) {
    t.stored == s.stored && t.next == After(|data|, s.next, None, |s.stored|, delivered)
  }

  ghost predicate SystemStep(data: seq<nat>, s: System, t: System) {
    || (exists length, delivered :: ChunkStep(data, s, t, length, delivered))
    || (exists delivered :: QueryStep(data, s, t, delivered))
  }

  ghost predicate SystemOk(data: seq<nat>, s: System) {
    s.next <= |s.stored| <= |data| && s.stored == data[..|s.stored|]
  }

  lemma SliceOfSlice(data: seq<nat>, next: nat, end: nat, i: nat, j: nat)
    requires next <= i <= j <= end <= |data|
    ensures data[next..end][i - next..j - next] == data[i..j]
  {
    var window := data[next..end];
    assert forall k :: 0 <= k < |window| ==> window[k] == data[next + k];
    var inner := window[i - next..j - next];
    assert forall k :: 0 <= k < |inner| ==> inner[k] == data[i..j][k];
  }

  lemma StoresPrefix(data: seq<nat>, before: seq<nat>, next: nat, end: nat, after: seq<nat>)
    requires next <= end <= |data| && Stores(data, before, next, end, after)
    requires |before| <= |data| && before == data[..|before|]
    ensures |before| <= |after| <= |data| && after == data[..|after|]
  {
    if after != before {
      SliceOfSlice(data, next, end, |before|, |after|);
      assert data[..|before|] + data[|before|..|after|] == data[..|after|];
    }
  }

  /** A true report is either taken over as it is or rejected. */
  lemma TrueReport(size: nat, next: nat, sent: Option<(nat, nat)>, stored: nat)
    requires stored < U64
    ensures ResumeAt(size, next, sent, RangeHeader(stored)).Some? ==>
              ResumeAt(size, next, sent, RangeHeader(stored)) == Some(stored) && next <= stored
  {
    RangeRoundTrip(stored);
  }

  lemma AfterTrueReport(size: nat, next: nat, sent: Option<(nat, nat)>, stored: nat, delivered: bool)
    requires next <= stored < U64
    ensures next <= After(size, next, sent, stored, delivered) <= stored
  {
    TrueReport(size, next, sent, stored);
  }

  lemma ChunkKeeps(data: seq<nat>, s: System, t: System, length: nat, delivered: bool)
    requires |data| < U64 && SystemOk(data, s) && ChunkStep(data, s, t, length, delivered)
    ensures SystemOk(data, t) && s.next <= t.next && |s.stored| <= |t.stored|
  {
    StoresPrefix(data, s.stored, s.next, s.next + length, t.stored);
    AfterTrueReport(|data|, s.next, Some((s.next, s.next + length)), |t.stored|, delivered);
  }

  lemma QueryKeeps(data: seq<nat>, s: System, t: System, delivered: bool)
    requires |data| < U64 && SystemOk(data, s) && QueryStep(data, s, t, delivered)
    ensures SystemOk(data, t) && s.next <= t.next && |s.stored| <= |t.stored|
  {
    AfterTrueReport(|data|, s.next, None, |s.stored|, delivered);
  }

  lemma SystemStepKeeps(data: seq<nat>, s: System, t: System)
    requires |data| < U64 && SystemOk(data, s) && SystemStep(data, s, t)
    ensures SystemOk(data, t) && s.next <= t.next && |s.stored| <= |t.stored|
  {
    if length, delivered :| ChunkStep(data, s, t, length, delivered) {
      ChunkKeeps(data, s, t, length, delivered);
    } else {
      var delivered :| QueryStep(data, s, t, delivered);
      QueryKeeps(data, s, t, delivered);
    }
  }

  /** In every run, however many replies are lost, the client never believes more is stored
      than is, and what is stored is a prefix of the file. */
  lemma {:induction false} UploadRunSafe(data: seq<nat>, run: seq<System>, k: nat)
    requires |data| < U64 && k < |run| && run[0] == System(0, [])
    requires forall i :: 0 <= i < |run| - 1 ==> SystemStep(data, run[i], run[i + 1])
    ensures SystemOk(data, run[k])
  {
    if k > 0 {
      UploadRunSafe(data, run, k - 1);
      SystemStepKeeps(data, run[k - 1], run[k]);
    }
  }

  /** A delivered status query brings the client level with the server in one step, and a chunk
      stored in full and acknowledged moves it to the end of the chunk. */
  lemma QueryCatchesUp(data: seq<nat>, s: System, t: System)
    requires |data| < U64 && SystemOk(data, s) && QueryStep(data, s, t, true)
    ensures t.next == |t.stored|
  {
    RangeRoundTrip(|s.stored|);
  }

  lemma ChunkMovesOn(data: seq<nat>, s: System, t: System, length: nat)
    requires |data| < U64 && SystemOk(data, s) && ChunkStep(data, s, t, length, true) && length > 0
    requires s.next == |s.stored| && |t.stored| == s.next + length
    ensures t.next == s.next + length == |t.stored|
  {
    RangeRoundTrip(|t.stored|);
  }
}
