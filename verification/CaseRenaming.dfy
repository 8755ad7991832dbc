// crates/myvault-core/src/vault.rs: the two-step rename of a file to another spelling of the
// same portable name, through a temporary name, with a fresh and a resuming mode.

module CaseRenaming {
  import opened Wrappers
  import opened Tree
  import opened Paths
  import opened Disk
  import opened VaultCore

  datatype CaseRenameOutcome =
    | CaseRenamed(durability: MoveDurability)
    | ResumedFromTemporary(durability: MoveDurability)
    | AlreadyRenamed(durability: MoveDurability)

  /** The three ends of one rename, in the directory they share. */
  datatype Ends = Ends(source: Path, temporary: Path, destination: Path) {

    /** `validate_case_rename_paths` */
    ghost predicate Accepted(n: Naming) {
      && source != [] && temporary != [] && destination != []
      && Classify(n, source) == Classify(n, destination) == Classify(n, temporary) == Content
      && source != destination && CollisionKey(n, source) == CollisionKey(n, destination)
      && Parent(source) == Parent(destination) == Parent(temporary)
      && temporary != source && temporary != destination && CollisionKey(n, temporary) != CollisionKey(n, source)
    }

    /** Which of source, temporary and destination exist. */
    function Present(root: Node): (bool, bool, bool) {
      (At(root, source) != Absent, At(root, temporary) != Absent, At(root, destination) != Absent)
    }

    /** No other name of the directory shares a key with one of the ends. */
    ghost predicate Alone(n: Naming, root: Node)
      requires source != [] && temporary != [] && destination != []
    {
      forall x {:trigger At(root, Parent(source) + [x])} ::
        At(root, Parent(source) + [x]) != Absent && x != Leaf(source) && x != Leaf(temporary) && x != Leaf(destination) ==>
          n.key(x) != n.key(Leaf(source)) && n.key(x) != n.key(Leaf(temporary))
    }

    /** The file object is at exactly one of the three ends. */
    ghost predicate Holds(root: Node, o: nat) {
      || (At(root, source) == IsFile(o) && Present(root) == (true, false, false))
      || (At(root, temporary) == IsFile(o) && Present(root) == (false, true, false))
      || (At(root, destination) == IsFile(o) && Present(root) == (false, false, true))
    }
  }

  /** One of the two renames and the flush after it. */
  function PhaseSteps(t: Trace, s: Path, d: Path, flushed: SyncResult): Trace
    requires d != []
  {
    Then(Then(t, Move(s, d)), Flush(Parent(d), flushed))
  }

  /** As much of that as a call that was cut off got through. */
  ghost predicate InPhase(t: Trace, now: Trace, s: Path, d: Path)
    requires d != []
  {
    now == t || now == Then(t, Move(s, d)) || FlushedOnce(Then(t, Move(s, d)), now, Parent(d))
  }

  ghost predicate InPhases(t: Trace, now: Trace, e: Ends)
    requires e.temporary != [] && e.destination != []
  {
    || InPhase(t, now, e.source, e.temporary)
    || InPhase(PhaseSteps(t, e.source, e.temporary, Synced(FullySynced)), now, e.temporary, e.destination)
    || InPhase(PhaseSteps(t, e.source, e.temporary, Synced(DirectorySyncUnsupported)), now, e.temporary, e.destination)
  }

  ghost predicate Begun(t: Trace, now: Trace, e: Ends, mode: Mode)
    requires e.temporary != [] && e.destination != []
  {
    if mode == Fresh then InPhases(t, now, e) else InPhase(t, now, e.temporary, e.destination)
  }

  /** What a call does to the disk, wherever it stops: a flush first, and each further rename
      only after a flush that succeeded. */
  ghost predicate CaseTrace(t: Trace, now: Trace, e: Ends, mode: Mode)
    requires e.source != [] && e.temporary != [] && e.destination != []
  {
    || now == t
    || FlushedOnce(t, now, Parent(e.source))
    || Begun(Then(t, Flush(Parent(e.source), Synced(FullySynced))), now, e, mode)
    || Begun(Then(t, Flush(Parent(e.source), Synced(DirectorySyncUnsupported))), now, e, mode)
  }

  /** The steps of a call that succeeded; its durability is what all of its flushes gave. */
  ghost predicate CaseReport(t: Trace, now: Trace, e: Ends, o: CaseRenameOutcome)
    requires e.source != [] && e.temporary != [] && e.destination != []
  {
    match o
    case AlreadyRenamed(d) => now == Then(t, Flush(Parent(e.source), Synced(d)))
    case ResumedFromTemporary(d) =>
      exists a, b :: now == PhaseSteps(Then(t, Flush(Parent(e.source), Synced(a))), e.temporary, e.destination, Synced(b)) && d == a.Combine(b)
    case CaseRenamed(d) =>
      exists a, b, c ::
        && now == PhaseSteps(PhaseSteps(Then(t, Flush(Parent(e.source), Synced(a))), e.source, e.temporary, Synced(b)),
                             e.temporary, e.destination, Synced(c))
        && d == a.Combine(b).Combine(c)
  }

  /** One flush of the directory, whatever it gave. */
  ghost predicate FlushedOnce(t: Trace, now: Trace, directory: Path) {
    now.Then? && now.before == t && now.step.Flush? && now.step.path == directory
  }

  /** The scan that tells which ends exist and refuses any colliding third name. */
  method CaseRenameState(v: Vault, e: Ends) returns (r: Result<(bool, bool, bool), Error>)
    requires v.Valid() && e.Accepted(v.naming)
    ensures r.Ok? ==> r.value == e.Present(v.root) && e.Alone(v.naming, v.root)
    ensures v.calm && e.Alone(v.naming, v.root) ==> r.Ok?
  {
    var bad := v.Fault();
    if bad {
      return Err(Io);
    }
    var d := Parent(e.source);
    NamesAt(v.root, d);
    var todo := Names(v.root, d);
    var state := (false, false, false);
    while todo != {}
      invariant todo <= Names(v.root, d)
      invariant state.0 <==> Leaf(e.source) in Names(v.root, d) - todo
      invariant state.1 <==> Leaf(e.temporary) in Names(v.root, d) - todo
      invariant state.2 <==> Leaf(e.destination) in Names(v.root, d) - todo
      invariant forall x :: x in Names(v.root, d) - todo && x != Leaf(e.source) && x != Leaf(e.temporary) && x != Leaf(e.destination) ==>
                  v.naming.key(x) != v.naming.key(Leaf(e.source)) && v.naming.key(x) != v.naming.key(Leaf(e.temporary))
      decreases |todo|
    {
      var name :| name in todo;
      if name == Leaf(e.source) {
        state := (true, state.1, state.2);
      } else if name == Leaf(e.temporary) {
        state := (state.0, true, state.2);
      } else if name == Leaf(e.destination) {
        state := (state.0, state.1, true);
      } else if v.naming.key(name) == v.naming.key(Leaf(e.source)) || v.naming.key(name) == v.naming.key(Leaf(e.temporary)) {
        return Err(PortablePathCollision);
      }
      todo := todo - {name};
    }
    return Ok(state);
  }

  /** The sync and the check after each of the two renames. */
  method SyncCaseRenamePhase(v: Vault, e: Ends, at: Path, expected: FileRevision) returns (r: Outcome<MoveDurability>)
    requires v.Valid() && e.Accepted(v.naming) && (at == e.temporary || at == e.destination)
    modifies v`steps
    ensures FlushedOnce(old(v.steps), v.steps, Parent(at)) && (r.Done? ==> v.steps.step.result == Synced(r.value))
    ensures r.Done? ==> Exact(v.hash, v.View(), at, expected) && e.Alone(v.naming, v.root) &&
                        e.Present(v.root) == (false, at == e.temporary, at == e.destination)
    ensures r.Failed? ==> r.error == CaseRenameOutcomeUnknown
    ensures v.calm && SettledAt(v.naming, v.hash, v.View(), e, at, expected) ==> r == Done(FullySynced)
  {
    var sync := v.Sync(Parent(at));
    var stop := v.Fault();
    if stop { return Stopped; }
    var state := CaseRenameState(v, e);
    if state.Err? || state.value != (false, at == e.temporary, at == e.destination) {
      return Failed(CaseRenameOutcomeUnknown);
    }
    var c := v.VerifyEntry(at, expected);
    if c.Err? || sync.SyncFailed? {
      return Failed(CaseRenameOutcomeUnknown);
    }
    return Done(sync.durability);
  }

  /** Everything one call may do to the tree. */
  ghost predicate CaseStep(n: Naming, pre: Node, post: Node, e: Ends, mode: Mode)
    requires e.source != [] && e.temporary != [] && e.destination != []
  {
    || post == pre
    || (&& mode == Fresh && e.Present(pre) == (true, false, false) && At(pre, e.source).IsFile? && e.Alone(n, pre)
        && (post == Rename(pre, e.source, e.temporary) ||
            post == Rename(Rename(pre, e.source, e.temporary), e.temporary, e.destination)))
    || (&& mode == Resume && e.Present(pre) == (false, true, false) && At(pre, e.temporary).IsFile? && e.Alone(n, pre)
        && post == Rename(pre, e.temporary, e.destination))
  }

  method CaseRename(v: Vault, e: Ends, expected: FileRevision, mode: Mode) returns (r: Outcome<CaseRenameOutcome>)
    requires v.Valid() && e.source != [] && e.temporary != [] && e.destination != []
    modifies v`root, v`steps
    ensures v.Valid()
    ensures CaseStep(v.naming, old(v.root), v.root, e, mode) && CaseTrace(old(v.steps), v.steps, e, mode)
    ensures r.Done? ==> CaseReport(old(v.steps), v.steps, e, r.value)
    ensures r.Done? ==> SettledAt(v.naming, v.hash, v.View(), e, e.destination, expected)
    ensures r.Done? && r.value.AlreadyRenamed? ==> v.root == old(v.root)
    // A resuming call never acts while the source exists.
    ensures mode == Resume && old(At(v.root, e.source)) != Absent ==> v.root == old(v.root) && !r.Done?
    // With no failure the ends that exist and the mode decide.
    ensures v.calm && old(Ready(v.naming, v.root, e, expected)) ==>
              CaseDecided(old(e.Present(v.root)), old(ExactAtAnEnd(v.hash, v.View(), e, expected)), mode, r)
  {
    ghost var ready, exact := Ready(v.naming, v.root, e, expected), ExactAtAnEnd(v.hash, v.View(), e, expected);
    var state, classified := PrepareCaseRename(v, e, expected, ready);
    r := DecideCaseRename(v, e, expected, mode, state, classified, old(v.steps), exact);
  }

  /** The exact file is at one of the ends. */
  ghost predicate ExactAtAnEnd(hash: Bytes -> string, s: State, e: Ends, expected: FileRevision) {
    Exact(hash, s, e.source, expected) || Exact(hash, s, e.temporary, expected) || Exact(hash, s, e.destination, expected)
  }

  /** Which end that is, when only one exists. */
  lemma ExactWhere(hash: Bytes -> string, s: State, e: Ends, expected: FileRevision)
    ensures e.Present(s.root) == (true, false, false) ==> (ExactAtAnEnd(hash, s, e, expected) <==> Exact(hash, s, e.source, expected))
    ensures e.Present(s.root) == (false, true, false) ==> (ExactAtAnEnd(hash, s, e, expected) <==> Exact(hash, s, e.temporary, expected))
    ensures e.Present(s.root) == (false, false, true) ==> (ExactAtAnEnd(hash, s, e, expected) <==> Exact(hash, s, e.destination, expected))
  {
  }

  /** A fresh call renames the source alone, a resuming one finishes from the temporary name
      alone, and both recognise the destination alone; a wrong mode, no end or several ends are
      refused. */
  ghost predicate CaseDecided(state: (bool, bool, bool), exact: bool, mode: Mode, r: Outcome<CaseRenameOutcome>) {
    && (state == (true, false, false) && mode == Fresh && exact ==> r == Done(CaseRenamed(FullySynced)))
    && (state == (false, true, false) && mode == Resume && exact ==> r == Done(ResumedFromTemporary(FullySynced)))
    && (state == (false, false, true) && exact ==> r == Done(AlreadyRenamed(FullySynced)))
    && (state == (true, false, false) && mode == Resume ==> r == Failed(InvalidMove))
    && (state == (false, true, false) && mode == Fresh ==> r == Failed(InvalidMove))
    && (state != (true, false, false) && state != (false, true, false) && state != (false, false, true) ==> r == Failed(InvalidMove))
    && (!exact ==> !r.Done?)
  }

  /** What follows from the checks and the ends that exist; `start` is the trace before the call. */
  method DecideCaseRename(v: Vault, e: Ends, expected: FileRevision, mode: Mode, checked: Result<(bool, bool, bool), Error>,
                          classified: MoveDurability, ghost start: Trace, ghost exact: bool) returns (r: Outcome<CaseRenameOutcome>)
    requires v.Valid() && e.source != [] && e.temporary != [] && e.destination != []
    requires checked.Ok? ==> Ready(v.naming, v.root, e, expected) && checked.value == e.Present(v.root)
    requires exact == ExactAtAnEnd(v.hash, v.View(), e, expected)
    requires if checked.Ok? then v.steps == Then(start, Flush(Parent(e.source), Synced(classified)))
             else v.steps == start || FlushedOnce(start, v.steps, Parent(e.source))
    modifies v`root, v`steps
    ensures v.Valid()
    ensures CaseStep(v.naming, old(v.root), v.root, e, mode) && CaseTrace(start, v.steps, e, mode)
    ensures r.Done? ==> CaseReport(start, v.steps, e, r.value)
    ensures r.Done? ==> SettledAt(v.naming, v.hash, v.View(), e, e.destination, expected)
    ensures r.Done? && r.value.AlreadyRenamed? ==> v.root == old(v.root)
    ensures mode == Resume && old(At(v.root, e.source)) != Absent ==> v.root == old(v.root) && !r.Done?
    ensures v.calm && checked.Ok? && classified == FullySynced ==> CaseDecided(old(e.Present(v.root)), exact, mode, r)
  {
    if checked.Err? {
      r := Failed(checked.error);
    } else {
      r := ActOnEnds(v, e, expected, mode, checked.value, classified, start, exact);
    }
  }

  method ActOnEnds(v: Vault, e: Ends, expected: FileRevision, mode: Mode, state: (bool, bool, bool), classified: MoveDurability,
                   ghost start: Trace, ghost exact: bool) returns (r: Outcome<CaseRenameOutcome>)
    requires v.Valid() && Ready(v.naming, v.root, e, expected) && state == e.Present(v.root)
    requires exact == ExactAtAnEnd(v.hash, v.View(), e, expected)
    requires v.steps == Then(start, Flush(Parent(e.source), Synced(classified)))
    modifies v`root, v`steps
    ensures v.Valid()
    ensures CaseStep(v.naming, old(v.root), v.root, e, mode) && CaseTrace(start, v.steps, e, mode)
    ensures r.Done? ==> CaseReport(start, v.steps, e, r.value)
    ensures r.Done? ==> SettledAt(v.naming, v.hash, v.View(), e, e.destination, expected)
    ensures r.Done? && r.value.AlreadyRenamed? ==> v.root == old(v.root)
    ensures mode == Resume && state.0 ==> v.root == old(v.root) && !r.Done?
    ensures v.calm && classified == FullySynced ==> CaseDecided(state, exact, mode, r)
  {
    ghost var pre := v.View();
    ExactWhere(v.hash, pre, e, expected);
    match state {
      case (false, false, true) =>
        var c := v.VerifyEntry(e.destination, expected);
        r := if c.Err? then Failed(c.error) else Done(AlreadyRenamed(classified));
      case (true, false, false) =>
        if mode == Resume {
          r := Failed(InvalidMove);
        } else {
          ghost var b, c;
          r, b, c := FreshRename(v, e, expected, classified);
          BegunFresh(start, v.steps, e, classified, b, c, r);
        }
      case (false, true, false) =>
        if mode != Resume {
          r := Failed(InvalidMove);
        } else {
          r := FinishRename(v, e, expected, classified);
          BegunResume(start, v.steps, e, classified, r);
        }
      case _ => r := Failed(InvalidMove);
    }
  }

  lemma BegunFresh(t: Trace, now: Trace, e: Ends, a: MoveDurability, b: MoveDurability, c: MoveDurability, r: Outcome<CaseRenameOutcome>)
    requires e.source != [] && e.temporary != [] && e.destination != []
    requires InPhases(Then(t, Flush(Parent(e.source), Synced(a))), now, e)
    requires r.Done? ==> TwoPhaseSteps(Then(t, Flush(Parent(e.source), Synced(a))), now, e, b, c) &&
                         r == Done(CaseRenamed(a.Combine(b).Combine(c)))
    ensures CaseTrace(t, now, e, Fresh) && (r.Done? ==> CaseReport(t, now, e, r.value))
  {
  }

  lemma BegunResume(t: Trace, now: Trace, e: Ends, a: MoveDurability, r: Outcome<CaseRenameOutcome>)
    requires e.source != [] && e.temporary != [] && e.destination != []
    requires InPhase(Then(t, Flush(Parent(e.source), Synced(a))), now, e.temporary, e.destination)
    requires r.Done? ==> exists b :: now == PhaseSteps(Then(t, Flush(Parent(e.source), Synced(a))), e.temporary, e.destination, Synced(b)) &&
                                     r == Done(ResumedFromTemporary(a.Combine(b)))
    ensures CaseTrace(t, now, e, Resume) && (r.Done? ==> CaseReport(t, now, e, r.value))
  {
  }

  /** What both publishing halves are entitled to. */
  ghost predicate Ready(n: Naming, root: Node, e: Ends, expected: FileRevision) {
    && e.Accepted(n) && expected.Valid() && expected.byteLen <= MAX_TRASH_PAYLOAD_BYTES
    && At(root, Parent(e.source)) == IsDir && Clear(n, root, Parent(e.source)) && e.Alone(n, root)
  }

  /** The exact file is at the end `at` and at no other, and all checks would pass again. */
  ghost predicate SettledAt(n: Naming, hash: Bytes -> string, s: State, e: Ends, at: Path, expected: FileRevision) {
    && Exact(hash, s, at, expected) && e.Present(s.root) == (at == e.source, at == e.temporary, at == e.destination)
    && Ready(n, s.root, e, expected)
  }

  /** The three trees a fresh call may leave. */
  lemma FreshSteps(n: Naming, pre: Node, e: Ends)
    requires e.source != [] && e.temporary != [] && e.destination != []
    requires e.Present(pre) == (true, false, false) && At(pre, e.source).IsFile? && e.Alone(n, pre)
    ensures var middle := Rename(pre, e.source, e.temporary);
            CaseStep(n, pre, pre, e, Fresh) && CaseStep(n, pre, middle, e, Fresh) &&
            CaseStep(n, pre, Rename(middle, e.temporary, e.destination), e, Fresh)
  {
  }

  /** Source to temporary to destination. */
  method FreshRename(v: Vault, e: Ends, expected: FileRevision, classified: MoveDurability)
    returns (r: Outcome<CaseRenameOutcome>, ghost b: MoveDurability, ghost c: MoveDurability)
    requires v.Valid() && Ready(v.naming, v.root, e, expected) && e.Present(v.root) == (true, false, false)
    modifies v`root, v`steps
    ensures v.Valid() && InPhases(old(v.steps), v.steps, e)
    ensures r.Done? ==> TwoPhaseSteps(old(v.steps), v.steps, e, b, c) && r == Done(CaseRenamed(classified.Combine(b).Combine(c)))
    ensures CaseStep(v.naming, old(v.root), v.root, e, Fresh)
    ensures r.Done? ==> old(Exact(v.hash, v.View(), e.source, expected))
    ensures r.Done? ==> r.value.CaseRenamed? && SettledAt(v.naming, v.hash, v.View(), e, e.destination, expected)
    ensures v.calm && old(Exact(v.hash, v.View(), e.source, expected)) ==> r == Done(CaseRenamed(classified))
  {
    b, c := FullySynced, FullySynced;
    var checked := v.VerifyEntry(e.source, expected);
    if checked.Ok? {
      ghost var pre := v.View();
      ghost var middle := pre.(root := Rename(pre.root, e.source, e.temporary));
      FreshSteps(v.naming, pre.root, e);
      PhaseEffect(v.naming, v.hash, pre, e, e.source, e.temporary, expected);
      PhaseEffect(v.naming, v.hash, middle, e, e.temporary, e.destination, expected);
      r, b, c := TwoPhases(v, e, expected, classified);
    } else {
      r := Failed(checked.error);
    }
  }

  lemma SecondPhase(t: Trace, now: Trace, e: Ends, b: MoveDurability)
    requires e.temporary != [] && e.destination != []
    requires InPhase(PhaseSteps(t, e.source, e.temporary, Synced(b)), now, e.temporary, e.destination)
    ensures InPhases(t, now, e)
  {
  }

  ghost predicate TwoPhaseSteps(t: Trace, now: Trace, e: Ends, b: MoveDurability, c: MoveDurability)
    requires e.temporary != [] && e.destination != []
  {
    now == PhaseSteps(PhaseSteps(t, e.source, e.temporary, Synced(b)), e.temporary, e.destination, Synced(c))
  }

  method TwoPhases(v: Vault, e: Ends, expected: FileRevision, classified: MoveDurability)
    returns (r: Outcome<CaseRenameOutcome>, ghost b: MoveDurability, ghost c: MoveDurability)
    requires v.Valid() && SettledAt(v.naming, v.hash, v.View(), e, e.source, expected)
    modifies v`root, v`steps
    ensures v.Valid() && InPhases(old(v.steps), v.steps, e)
    ensures r.Done? ==> TwoPhaseSteps(old(v.steps), v.steps, e, b, c) && r == Done(CaseRenamed(classified.Combine(b).Combine(c)))
    ensures var middle := Rename(old(v.root), e.source, e.temporary);
            v.root == old(v.root) || v.root == middle || v.root == Rename(middle, e.temporary, e.destination)
    ensures r.Done? ==> r.value.CaseRenamed? && v.root == Rename(Rename(old(v.root), e.source, e.temporary), e.temporary, e.destination)
    ensures v.calm ==> r == Done(CaseRenamed(classified))
  {
    b, c := FullySynced, FullySynced;
    var first := RenamePhase(v, e, e.source, e.temporary, expected);
    if !first.Done? {
      r := if first.Stopped? then Stopped else Failed(first.error);
    } else {
      b := first.value;
      assert v.root == Rename(old(v.root), e.source, e.temporary);
      var second := RenamePhase(v, e, e.temporary, e.destination, expected);
      SecondPhase(old(v.steps), v.steps, e, b);
      if !second.Done? {
        r := if second.Stopped? then Stopped else Failed(second.error);
      } else {
        c := second.value;
        r := Done(CaseRenamed(classified.Combine(first.value).Combine(second.value)));
      }
    }
  }

  /** Temporary to destination. */
  method FinishRename(v: Vault, e: Ends, expected: FileRevision, classified: MoveDurability) returns (r: Outcome<CaseRenameOutcome>)
    requires v.Valid() && Ready(v.naming, v.root, e, expected) && e.Present(v.root) == (false, true, false)
    modifies v`root, v`steps
    ensures v.Valid() && InPhase(old(v.steps), v.steps, e.temporary, e.destination)
    ensures r.Done? ==> exists b :: v.steps == PhaseSteps(old(v.steps), e.temporary, e.destination, Synced(b)) &&
                                    r == Done(ResumedFromTemporary(classified.Combine(b)))
    ensures CaseStep(v.naming, old(v.root), v.root, e, Resume)
    ensures r.Done? ==> old(Exact(v.hash, v.View(), e.temporary, expected))
    ensures r.Done? ==> r.value.ResumedFromTemporary? && SettledAt(v.naming, v.hash, v.View(), e, e.destination, expected)
    ensures v.calm && old(Exact(v.hash, v.View(), e.temporary, expected)) ==> r == Done(ResumedFromTemporary(classified))
  {
    var c := v.VerifyEntry(e.temporary, expected);
    if c.Err? { return Failed(c.error); }
    PhaseEffect(v.naming, v.hash, v.View(), e, e.temporary, e.destination, expected);
    var moved := RenamePhase(v, e, e.temporary, e.destination, expected);
    if moved.Stopped? { return Stopped; }
    if moved.Failed? { return Failed(moved.error); }
    return Done(ResumedFromTemporary(classified.Combine(moved.value)));
  }

  /** The checks before the first rename. */
  method PrepareCaseRename(v: Vault, e: Ends, expected: FileRevision, ghost ready: bool)
    returns (r: Result<(bool, bool, bool), Error>, classified: MoveDurability)
    requires v.Valid() && e.source != [] && e.temporary != [] && e.destination != []
    requires ready ==> Ready(v.naming, v.root, e, expected)
    modifies v`steps
    ensures v.steps == old(v.steps) || FlushedOnce(old(v.steps), v.steps, Parent(e.source))
    ensures r.Ok? ==> v.steps == Then(old(v.steps), Flush(Parent(e.source), Synced(classified)))
    ensures r.Ok? ==> Ready(v.naming, v.root, e, expected) && r.value == e.Present(v.root)
    ensures v.calm && ready ==> r.Ok? && classified == FullySynced
  {
    classified := DirectorySyncUnsupported;
    var c := CheckCaseRequest(v.naming, e, expected);
    if c.Err? { return Err(c.error), classified; }
    c := OpenEnds(v, e);
    if c.Err? { return Err(c.error), classified; }
    var sync := v.Sync(Parent(e.source));
    if sync.SyncFailed? {
      return Err(CaseRenamePrepublicationSyncFailed), classified;
    }
    classified := sync.durability;
    r := CaseRenameState(v, e);
  }

  /** `validate_case_rename_paths` and the checks on the revision. */
  method CheckCaseRequest(n: Naming, e: Ends, expected: FileRevision) returns (r: Result<(), Error>)
    requires e.source != [] && e.temporary != [] && e.destination != []
    ensures r.Ok? <==> e.Accepted(n) && expected.Valid() && expected.byteLen <= MAX_TRASH_PAYLOAD_BYTES
  {
    if Classify(n, e.source) != Content || Classify(n, e.destination) != Content || Classify(n, e.temporary) != Content {
      return Err(InvalidMove);
    }
    if e.source == e.destination || CollisionKey(n, e.source) != CollisionKey(n, e.destination) { return Err(InvalidMove); }
    if Parent(e.source) != Parent(e.destination) || Parent(e.source) != Parent(e.temporary) { return Err(InvalidMove); }
    if e.temporary == e.source || e.temporary == e.destination || CollisionKey(n, e.temporary) == CollisionKey(n, e.source) {
      return Err(InvalidMove);
    }
    if !expected.Valid() { return Err(InvalidRevision); }
    if expected.byteLen > MAX_TRASH_PAYLOAD_BYTES { return Err(ResourceLimitExceeded); }
    return Ok(());
  }

  method OpenEnds(v: Vault, e: Ends) returns (r: Result<(), Error>)
    requires v.Valid() && e.Accepted(v.naming)
    ensures r.Ok? ==> At(v.root, Parent(e.source)) == IsDir && Clear(v.naming, v.root, Parent(e.source))
    ensures v.calm && At(v.root, Parent(e.source)) == IsDir && Clear(v.naming, v.root, Parent(e.source)) ==> r.Ok?
  {
    r := v.OpenParentChecked(e.source);
    if r.Err? { return; }
    r := v.OpenParentChecked(e.destination);
    if r.Err? { return; }
    r := v.OpenParentChecked(e.temporary);
  }

  /** Reopen, rename one end to the next, flush and check. */
  method RenamePhase(v: Vault, e: Ends, s: Path, d: Path, expected: FileRevision) returns (r: Outcome<MoveDurability>)
    requires v.Valid() && e.Accepted(v.naming) && ((s == e.source && d == e.temporary) || (s == e.temporary && d == e.destination))
    requires SettledAt(v.naming, v.hash, v.View(), e, s, expected)
    modifies v`root, v`steps
    ensures v.Valid() && InPhase(old(v.steps), v.steps, s, d)
    ensures r.Done? ==> v.steps == PhaseSteps(old(v.steps), s, d, Synced(r.value))
    ensures v.root == old(v.root) || v.root == Rename(old(v.root), s, d)
    ensures r.Done? ==> v.root == Rename(old(v.root), s, d)
    ensures r.Done? ==> SettledAt(v.naming, v.hash, v.View(), e, d, expected)
    ensures v.calm ==> r == Done(FullySynced)
  {
    ghost var moved := v.View().(root := Rename(v.root, s, d));
    PhaseEffect(v.naming, v.hash, v.View(), e, s, d, expected);
    var renamed := ReopenAndRename(v, s, d);
    if !renamed.Done? {
      r := if renamed.Stopped? then Stopped else Failed(renamed.error);
    } else {
      assert v.View() == moved;
      r := SyncCaseRenamePhase(v, e, d, expected);
      assert v.View() == moved && v.steps == PhaseSteps(old(v.steps), s, d, v.steps.step.result);
    }
  }

  method ReopenAndRename(v: Vault, s: Path, d: Path) returns (r: Outcome<()>)
    requires v.Valid() && s != [] && d != []
    requires At(v.root, Parent(s)) == IsDir && Clear(v.naming, v.root, Parent(s)) && CanRename(v.root, s, d)
    modifies v`root, v`steps
    ensures v.Valid()
    ensures v.root == old(v.root) || v.root == Rename(old(v.root), s, d)
    ensures v.steps == old(v.steps) || v.steps == Then(old(v.steps), Move(s, d))
    ensures r.Done? ==> v.root == Rename(old(v.root), s, d) && v.steps == Then(old(v.steps), Move(s, d))
    ensures v.calm ==> r.Done?
  {
    var c := v.OpenParentChecked(s);
    if c.Err? { return Failed(c.error); }
    var stop := v.Fault();
    if stop { return Stopped; }
    c := v.RenameNoReplace(s, d);
    if c.Err? { return Failed(c.error); }
    stop := v.Fault();
    if stop { return Stopped; }
    return Done(());
  }

  lemma PhaseEffect(n: Naming, hash: Bytes -> string, v: State, e: Ends, s: Path, d: Path, rev: FileRevision)
    requires SettledAt(n, hash, v, e, s, rev)
    requires (s == e.source && d == e.temporary) || (s == e.temporary && d == e.destination)
    ensures CanRename(v.root, s, d) && SettledAt(n, hash, v.(root := Rename(v.root, s, d)), e, d, rev)
  {
    PhaseMoves(n, hash, v, e, s, d, rev);
    PhaseStaysReady(n, v.root, e, s, d, rev);
  }

  lemma PhaseMoves(n: Naming, hash: Bytes -> string, v: State, e: Ends, s: Path, d: Path, rev: FileRevision)
    requires SettledAt(n, hash, v, e, s, rev)
    requires (s == e.source && d == e.temporary) || (s == e.temporary && d == e.destination)
    ensures CanRename(v.root, s, d)
    ensures var after := v.(root := Rename(v.root, s, d));
            Exact(hash, after, d, rev) && e.Present(after.root) == (d == e.source, d == e.temporary, d == e.destination)
  {
    FileCanRename(v.root, s, d);
    RenameFile(v.root, s, d);
  }

  lemma PhaseStaysReady(n: Naming, root: Node, e: Ends, s: Path, d: Path, rev: FileRevision)
    requires Ready(n, root, e, rev) && CanRename(root, s, d) && At(root, s).IsFile?
    requires (s == e.source && d == e.temporary) || (s == e.temporary && d == e.destination)
    ensures Ready(n, Rename(root, s, d), e, rev)
  {
    RenameFile(root, s, d);
    var q := Parent(s);
    assert |q| < |d| && |q| < |s|;
    StillClear(n, root, Rename(root, s, d), q, d);
    StillAlone(n, root, Rename(root, s, d), e, d);
  }

  lemma StillClear(n: Naming, pre: Node, post: Node, q: Path, d: Path)
    requires |q| < |d| && Clear(n, pre, q)
    requires forall p :: p != d && At(post, p) != Absent ==> At(pre, p) != Absent
    ensures Clear(n, post, q)
  {
    forall i, x | 0 <= i < |q| && At(post, q[..i] + [x]) != Absent && n.key(x) == n.key(q[i]) ensures x == q[i] {
      assert |q[..i] + [x]| < |d|;
      assert NoCollision(n, pre, q[..i], q[i]);
    }
  }

  lemma StillAlone(n: Naming, pre: Node, post: Node, e: Ends, d: Path)
    requires e.Accepted(n) && e.Alone(n, pre) && (d == e.temporary || d == e.destination)
    requires forall p :: p != d && At(post, p) != Absent ==> At(pre, p) != Absent
    ensures e.Alone(n, post)
  {
    forall x | At(post, Parent(e.source) + [x]) != Absent && x != Leaf(e.source) && x != Leaf(e.temporary) && x != Leaf(e.destination)
      ensures n.key(x) != n.key(Leaf(e.source)) && n.key(x) != n.key(Leaf(e.temporary))
    {
      var p := Parent(e.source) + [x];
      assert Leaf(p) == x;
      assert At(pre, p) != Absent;
    }
  }

  // ----- Runs of calls

  /** One call, wherever it was cut off, keeps the object at exactly one end and touches no
      other path. */
  lemma CaseStepKeeps(n: Naming, pre: Node, post: Node, e: Ends, mode: Mode, o: nat)
    requires e.Accepted(n) && At(pre, Parent(e.source)) == IsDir
    requires CaseStep(n, pre, post, e, mode) && e.Holds(pre, o)
    ensures e.Holds(post, o) && At(post, Parent(e.source)) == IsDir
    ensures forall q :: q != e.source && q != e.temporary && q != e.destination ==> At(post, q) == At(pre, q)
  {
    if post != pre {
      assert |Parent(e.source)| < |e.source| && |Parent(e.source)| < |e.temporary| && |Parent(e.source)| < |e.destination|;
      if mode == Resume {
        FileCanRename(pre, e.temporary, e.destination);
        RenameFile(pre, e.temporary, e.destination);
      } else {
        FileCanRename(pre, e.source, e.temporary);
        RenameFile(pre, e.source, e.temporary);
        var middle := Rename(pre, e.source, e.temporary);
        FileCanRename(middle, e.temporary, e.destination);
        RenameFile(middle, e.temporary, e.destination);
      }
    }
  }

  /** Any number of calls in any modes, each cut off anywhere, starting with the file at the
      source: the object is always at exactly one end, and no other path ever changes. */
  lemma {:induction false} CaseRunKeeps(n: Naming, run: seq<Node>, modes: seq<Mode>, e: Ends, o: nat, k: nat)
    requires e.Accepted(n) && |run| == |modes| + 1 && k < |run|
    requires At(run[0], Parent(e.source)) == IsDir && e.Holds(run[0], o)
    requires forall i :: 0 <= i < |modes| ==> CaseStep(n, run[i], run[i + 1], e, modes[i])
    ensures e.Holds(run[k], o) && At(run[k], Parent(e.source)) == IsDir
    ensures forall q :: q != e.source && q != e.temporary && q != e.destination ==> At(run[k], q) == At(run[0], q)
  {
    if k > 0 {
      CaseRunKeeps(n, run, modes, e, o, k - 1);
      CaseStepKeeps(n, run[k - 1], run[k], e, modes[k - 1], o);
    }
  }

  /** The exact file is at the end `at`, alone, and ready for the next call. */
  ghost predicate Settled(n: Naming, hash: Bytes -> string, s: State, e: Ends, expected: FileRevision, at: Path) {
    (at == e.source || at == e.temporary || at == e.destination) && SettledAt(n, hash, s, e, at, expected)
  }

  /** A call that was cut off anywhere leaves everything in order for the next one. */
  lemma CaseStepSettled(n: Naming, hash: Bytes -> string, pre: State, post: State, e: Ends, expected: FileRevision, mode: Mode, at: Path)
    returns (next: Path)
    requires Settled(n, hash, pre, e, expected, at) && post == pre.(root := post.root) && CaseStep(n, pre.root, post.root, e, mode)
    ensures Settled(n, hash, post, e, expected, next)
  {
    next := at;
    if post.root != pre.root {
      if mode == Fresh {
        PhaseEffect(n, hash, pre, e, e.source, e.temporary, expected);
        var middle := pre.(root := Rename(pre.root, e.source, e.temporary));
        PhaseEffect(n, hash, middle, e, e.temporary, e.destination, expected);
        next := if post == middle then e.temporary else e.destination;
      } else {
        PhaseEffect(n, hash, pre, e, e.temporary, e.destination, expected);
        next := e.destination;
      }
    }
  }

  /** Where the file is seen alone is where it is settled. */
  lemma SettledWhere(n: Naming, hash: Bytes -> string, s: State, e: Ends, expected: FileRevision, at: Path)
    requires Settled(n, hash, s, e, expected, at)
    ensures At(s.root, e.source) == Absent <==> at != e.source
    ensures e.Present(s.root) == (false, false, true) ==> at == e.destination
  {
  }

  /** Any calls in any modes, each of which may fail or be cut off anywhere. */
  method RunCaseRenames(v: Vault, e: Ends, expected: FileRevision, modes: seq<Mode>) returns (ghost at: Path)
    requires v.Valid() && Settled(v.naming, v.hash, v.View(), e, expected, e.source)
    modifies v`root, v`steps
    ensures v.Valid() && Settled(v.naming, v.hash, v.View(), e, expected, at)
  {
    at := e.source;
    var i := 0;
    while i < |modes|
      invariant 0 <= i <= |modes| && v.Valid() && Settled(v.naming, v.hash, v.View(), e, expected, at)
    {
      at := RunOne(v, e, expected, modes[i], at);
      i := i + 1;
    }
  }

  method RunOne(v: Vault, e: Ends, expected: FileRevision, mode: Mode, ghost at: Path) returns (ghost next: Path)
    requires v.Valid() && Settled(v.naming, v.hash, v.View(), e, expected, at)
    modifies v`root, v`steps
    ensures v.Valid() && Settled(v.naming, v.hash, v.View(), e, expected, next)
  {
    ghost var pre := v.View();
    var _ := CaseRename(v, e, expected, mode);
    next := CaseStepSettled(v.naming, v.hash, pre, v.View(), e, expected, mode, at);
  }

  /** With no failure, a fresh call from the source and a resuming call from the temporary name
      or the destination end at the destination. */
  method FinishCaseRename(v: Vault, e: Ends, expected: FileRevision, ghost at: Path) returns (r: Outcome<CaseRenameOutcome>)
    requires v.Valid() && v.calm && Settled(v.naming, v.hash, v.View(), e, expected, at)
    modifies v`root, v`steps
    ensures v.Valid() && r.Done? && Settled(v.naming, v.hash, v.View(), e, expected, e.destination)
  {
    ghost var pre := v.View();
    SettledWhere(v.naming, v.hash, pre, e, expected, at);
    var mode := if At(v.root, e.source) == Absent then Resume else Fresh;
    r := CaseRename(v, e, expected, mode);
    ghost var next := CaseStepSettled(v.naming, v.hash, pre, v.View(), e, expected, mode, at);
    SettledWhere(v.naming, v.hash, v.View(), e, expected, next);
  }

  /** After any calls that were cut off anywhere, one call without a failure ends at the
      destination: a resuming one as soon as the source is gone, a fresh one otherwise. */
  method FinishAfterCuts(v: Vault, e: Ends, expected: FileRevision, modes: seq<Mode>) returns (r: Outcome<CaseRenameOutcome>)
    requires v.Valid() && Settled(v.naming, v.hash, v.View(), e, expected, e.source)
    modifies v`root, v`steps, v`calm
    ensures v.Valid() && r.Done? && Settled(v.naming, v.hash, v.View(), e, expected, e.destination)
  {
    ghost var at := RunCaseRenames(v, e, expected, modes);
    v.Calm();
    r := FinishCaseRename(v, e, expected, at);
  }
}
