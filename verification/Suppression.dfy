// crates/myvault-core/src/watcher.rs: the one-shot tokens that hide the echoes of the vault's own
// writes. Paths are their text.

module Suppression {

  datatype Fingerprint = Fingerprint(byteLen: nat, contentTag: nat)

  datatype Token = Token(fingerprint: Fingerprint, expires: nat)

  type Tokens = map<string, Token>

  datatype Op =
    | Record(path: string, fingerprint: Fingerprint, expires: nat)
    | Observe(path: string, fingerprint: Fingerprint, now: nat)
    | Prune(now: nat)

  /** What one call leaves, and the answer when it is an observation. */
  function Next(tokens: Tokens, op: Op): (Tokens, bool) {
    match op
    case Record(p, f, e) => (tokens[p := Token(f, e)], false)
    case Observe(p, f, now) =>
      if p !in tokens then (tokens, false)
      else if now > tokens[p].expires then (tokens - {p}, false)
      else if f == tokens[p].fingerprint then (tokens - {p}, true)
      else (tokens, false)
    case Prune(now) => (map p | p in tokens && now <= tokens[p].expires :: tokens[p], false)
  }

  class SelfWriteSuppressor {
    var entries: Tokens

    constructor ()
      ensures entries == map[]
    {
      entries := map[];
    }

    method RecordWrite(path: string, fingerprint: Fingerprint, expires: nat)
      modifies this
      ensures entries == Next(old(entries), Record(path, fingerprint, expires)).0
    {
      entries := entries[path := Token(fingerprint, expires)];
    }

    method ShouldSuppress(path: string, observed: Fingerprint, now: nat) returns (suppress: bool)
      modifies this
      ensures (entries, suppress) == Next(old(entries), Observe(path, observed, now))
    {
      if path !in entries {
        return false;
      }
      var entry := entries[path];
      if now > entry.expires {
        entries := entries - {path};
        return false;
      }
      if observed == entry.fingerprint {
        entries := entries - {path};
        return true;
      }
      return false;
    }

    method PruneExpired(now: nat)
      modifies this
      ensures entries == Next(old(entries), Prune(now)).0
    {
      entries := map p | p in entries && now <= entries[p].expires :: entries[p];
    }
  }

  // ----- Traces

  /** The tokens before call `k`. */
  function Before(ops: seq<Op>, k: nat): Tokens
    requires k <= |ops|
  {
    if k == 0 then map[] else Next(Before(ops, k - 1), ops[k - 1]).0
  }

  /** Call `k` hid its observation. */
  predicate Hid(ops: seq<Op>, k: nat)
    requires k < |ops|
  {
    Next(Before(ops, k), ops[k]).1
  }

  ghost predicate ClockedBy(ops: seq<Op>) {
    forall i, j :: 0 <= i < j < |ops| && !ops[i].Record? && !ops[j].Record? ==> ops[i].now <= ops[j].now
  }

  ghost predicate LatestRecord(ops: seq<Op>, k: nat, p: string, j: nat)
    requires k <= |ops|
  {
    && j < k && ops[j].Record? && ops[j].path == p
    && forall i :: j < i < k && ops[i].Record? ==> ops[i].path != p
  }

  ghost predicate HidBetween(ops: seq<Op>, p: string, j: int, k: nat)
    requires k <= |ops| && -1 <= j
  {
    exists i :: j < i < k && !ops[i].Prune? && ops[i].path == p && Hid(ops, i)
  }

  ghost predicate TimeBetween(ops: seq<Op>, j: nat, k: nat, deadline: nat)
    requires k <= |ops|
  {
    exists i :: j < i < k && !ops[i].Record? && ops[i].now > deadline
  }

  /** A token in the table is the latest record of its path and was not used yet; a token
      that is gone was used or its deadline has passed. */
  lemma {:induction false} TokenIsLatest(ops: seq<Op>, k: nat, p: string, j: nat)
    requires k <= |ops| && LatestRecord(ops, k, p, j)
    ensures p in Before(ops, k) ==> Before(ops, k)[p] == Token(ops[j].fingerprint, ops[j].expires) && !HidBetween(ops, p, j, k)
    ensures p !in Before(ops, k) ==> HidBetween(ops, p, j, k) || TimeBetween(ops, j, k, ops[j].expires)
    decreases k
  {
    if j < k - 1 {
      var m := k - 1;
      TokenIsLatest(ops, m, p, j);
      if p in Before(ops, m) && p !in Before(ops, k) {
        assert !Hid(ops, m) ==> !ops[m].Record? && ops[m].now > ops[j].expires;
      }
      if p in Before(ops, k) {
        assert p in Before(ops, m);
      }
    }
  }

  lemma {:induction false} NoRecordNoToken(ops: seq<Op>, k: nat, p: string)
    requires k <= |ops| && forall i :: 0 <= i < k && ops[i].Record? ==> ops[i].path != p
    ensures p !in Before(ops, k)
  {
    if k > 0 {
      NoRecordNoToken(ops, k - 1, p);
    }
  }

  /** An observation is hidden exactly when it equals the latest record of its path, that
      record has not expired, and no earlier observation used it up. */
  lemma HiddenExactly(ops: seq<Op>, k: nat)
    requires ClockedBy(ops) && k < |ops| && ops[k].Observe?
    ensures Hid(ops, k) <==>
            exists j: nat :: LatestRecord(ops, k, ops[k].path, j) && ops[j].fingerprint == ops[k].fingerprint &&
                             ops[k].now <= ops[j].expires && !HidBetween(ops, ops[k].path, j, k)
  {
    var p := ops[k].path;
    if exists i :: 0 <= i < k && ops[i].Record? && ops[i].path == p {
      var j := FindLatest(ops, k, p);
      TokenIsLatest(ops, k, p, j);
      assert forall i: nat :: LatestRecord(ops, k, p, i) ==> i == j;
    } else {
      NoRecordNoToken(ops, k, p);
    }
  }

  lemma FindLatest(ops: seq<Op>, k: nat, p: string) returns (j: nat)
    requires k <= |ops| && exists i :: 0 <= i < k && ops[i].Record? && ops[i].path == p
    ensures LatestRecord(ops, k, p, j)
  {
    if k > 0 && ops[k - 1].Record? && ops[k - 1].path == p {
      j := k - 1;
    } else {
      j := FindLatest(ops, k - 1, p);
    }
  }

  // ----- Pruning is invisible

  function WithoutPrunes(ops: seq<Op>): seq<Op> {
    if ops == [] then []
    else
      var last := ops[|ops| - 1];
      WithoutPrunes(ops[..|ops| - 1]) + (if last.Prune? then [] else [last])
  }

  /** The answers of all calls but prunes, in order. */
  function Answers(ops: seq<Op>): seq<bool> {
    if ops == [] then []
    else
      var k := |ops| - 1;
      Answers(ops[..k]) + (if ops[k].Prune? then [] else [Hid(ops, k)])
  }

  /** The two tables agree on every token that is still alive at `now`. */
  ghost predicate AgreeFrom(a: Tokens, b: Tokens, now: nat) {
    forall p, t: Token :: now <= t.expires ==> ((p in a && a[p] == t) <==> (p in b && b[p] == t))
  }

  lemma {:induction false} BeforePrefix(ops: seq<Op>, longer: seq<Op>, k: nat)
    requires k <= |ops| && ops <= longer
    ensures Before(ops, k) == Before(longer, k)
  {
    if k > 0 {
      BeforePrefix(ops, longer, k - 1);
    }
  }

  /** The time reached by a trace. */
  function Reached(ops: seq<Op>): nat {
    if ops == [] then 0
    else
      var last := ops[|ops| - 1];
      if last.Record? then Reached(ops[..|ops| - 1]) else last.now
  }

  lemma {:induction false} ReachedIsPast(ops: seq<Op>, op: Op)
    requires ClockedBy(ops + [op]) && !op.Record?
    ensures Reached(ops) <= op.now
  {
    if ops != [] {
      var k := |ops| - 1;
      if ops[k].Record? {
        assert ops == ops[..k] + [ops[k]];
        assert ClockedBy(ops[..k] + [op]) by {
          var short, long := ops[..k] + [op], ops + [op];
          forall i, j | 0 <= i < j < |short| && !short[i].Record? && !short[j].Record? ensures short[i].now <= short[j].now {
            assert short[i] == long[i] && short[j] == long[if j == k then k + 1 else j];
          }
        }
        ReachedIsPast(ops[..k], op);
      } else {
        assert (ops + [op])[k] == ops[k] && (ops + [op])[k + 1] == op;
      }
    }
  }

  lemma AgreeStep(a: Tokens, b: Tokens, now: nat, op: Op)
    requires AgreeFrom(a, b, now) && (op.Observe? ==> now <= op.now) && !op.Prune?
    ensures AgreeFrom(Next(a, op).0, Next(b, op).0, if op.Record? then now else op.now)
    ensures Next(a, op).1 == Next(b, op).1
  {
    if op.path in a {
      assert now <= a[op.path].expires ==> op.path in b && b[op.path] == a[op.path];
    }
    if op.path in b {
      assert now <= b[op.path].expires ==> op.path in a && a[op.path] == b[op.path];
    }
  }

  lemma AgreePrune(a: Tokens, b: Tokens, now: nat, op: Op)
    requires AgreeFrom(a, b, now) && op.Prune? && now <= op.now
    ensures AgreeFrom(Next(a, op).0, b, op.now)
  {
  }

  /** One more call, seen in the trace and in the trace without prunes. */
  lemma OneMore(ops: seq<Op>, op: Op)
    ensures Before(ops + [op], |ops|) == Before(ops, |ops|)
    ensures op.Prune? ==> WithoutPrunes(ops + [op]) == WithoutPrunes(ops)
    ensures !op.Prune? ==> WithoutPrunes(ops + [op]) == WithoutPrunes(ops) + [op]
    ensures op.Prune? ==> Answers(ops + [op]) == Answers(ops)
    ensures !op.Prune? ==> Answers(ops + [op]) == Answers(ops) + [Next(Before(ops, |ops|), op).1]
    ensures Reached(ops + [op]) == if op.Record? then Reached(ops) else op.now
  {
    var longer := ops + [op];
    assert longer[..|ops|] == ops;
    BeforePrefix(ops, longer, |ops|);
  }

  lemma {:induction false} PrunedAgrees(ops: seq<Op>)
    requires ClockedBy(ops)
    ensures AgreeFrom(Before(ops, |ops|), Before(WithoutPrunes(ops), |WithoutPrunes(ops)|), Reached(ops))
    ensures Answers(WithoutPrunes(ops)) == Answers(ops)
  {
    if ops != [] {
      var init, op := ops[..|ops| - 1], ops[|ops| - 1];
      assert ops == init + [op];
      PrunedAgrees(init);
      AgreeOneMore(init, op);
    }
  }

  lemma AgreeOneMore(init: seq<Op>, op: Op)
    requires ClockedBy(init + [op])
    requires AgreeFrom(Before(init, |init|), Before(WithoutPrunes(init), |WithoutPrunes(init)|), Reached(init))
    requires Answers(WithoutPrunes(init)) == Answers(init)
    ensures var ops := init + [op];
            && AgreeFrom(Before(ops, |ops|), Before(WithoutPrunes(ops), |WithoutPrunes(ops)|), Reached(ops))
            && Answers(WithoutPrunes(ops)) == Answers(ops)
  {
    var bare := WithoutPrunes(init);
    var a, b := Before(init, |init|), Before(bare, |bare|);
    if !op.Record? {
      ReachedIsPast(init, op);
    }
    OneMore(init, op);
    if op.Prune? {
      AgreePrune(a, b, Reached(init), op);
    } else {
      OneMore(bare, op);
      AgreeStep(a, b, Reached(init), op);
    }
  }

  /** Two traces that differ only in prune calls give the same answers. */
  lemma PrunesNeverMatter(a: seq<Op>, b: seq<Op>)
    requires ClockedBy(a) && ClockedBy(b) && WithoutPrunes(a) == WithoutPrunes(b)
    ensures Answers(a) == Answers(b)
  {
    PrunedAgrees(a);
    PrunedAgrees(b);
  }

  // ----- One record hides at most one observation

  function Records(ops: seq<Op>, p: string, k: nat): nat
    requires k <= |ops|
  {
    if k == 0 then 0 else Records(ops, p, k - 1) + if ops[k - 1].Record? && ops[k - 1].path == p then 1 else 0
  }

  function Hidden(ops: seq<Op>, p: string, k: nat): nat
    requires k <= |ops|
  {
    if k == 0 then 0 else Hidden(ops, p, k - 1) + if ops[k - 1].Observe? && ops[k - 1].path == p && Hid(ops, k - 1) then 1 else 0
  }

  lemma {:induction false} HiddenAtMostRecords(ops: seq<Op>, p: string, k: nat)
    requires k <= |ops|
    ensures Hidden(ops, p, k) + (if p in Before(ops, k) then 1 else 0) <= Records(ops, p, k)
  {
    if k > 0 {
      HiddenAtMostRecords(ops, p, k - 1);
    }
  }

  // ----- The object over a whole trace

  /** Some observation of `p` between calls `j` and `k` was hidden. */
  ghost predicate UsedBetween(ops: seq<Op>, answers: seq<bool>, p: string, j: nat, k: nat)
    requires k <= |ops| == |answers|
  {
    exists i :: j < i < k && ops[i].Observe? && ops[i].path == p && answers[i]
  }

  /** Call `k` observes exactly what the latest record of its path announced, in time, and no
      hidden observation has used that record up. */
  ghost predicate Echo(ops: seq<Op>, answers: seq<bool>, k: nat)
    requires k < |ops| == |answers| && ops[k].Observe?
  {
    exists j: nat :: LatestRecord(ops, k, ops[k].path, j) && ops[j].fingerprint == ops[k].fingerprint &&
                     ops[k].now <= ops[j].expires && !UsedBetween(ops, answers, ops[k].path, j, k)
  }

  /** The answers of all calls but prunes, in order. */
  function Unpruned(ops: seq<Op>, answers: seq<bool>): seq<bool>
    requires |ops| == |answers|
  {
    if ops == [] then []
    else
      var k := |ops| - 1;
      Unpruned(ops[..k], answers[..k]) + (if ops[k].Prune? then [] else [answers[k]])
  }

  ghost predicate IsTrace(ops: seq<Op>, answers: seq<bool>) {
    |answers| == |ops| && forall k :: 0 <= k < |ops| ==> answers[k] == Hid(ops, k)
  }

  lemma EchoIsHidden(ops: seq<Op>, answers: seq<bool>, k: nat)
    requires ClockedBy(ops) && IsTrace(ops, answers) && k < |ops| && ops[k].Observe?
    ensures answers[k] <==> Echo(ops, answers, k)
  {
    HiddenExactly(ops, k);
    forall j: nat ensures UsedBetween(ops, answers, ops[k].path, j, k) <==> HidBetween(ops, ops[k].path, j, k) {
      if i :| j < i < k && !ops[i].Prune? && ops[i].path == ops[k].path && Hid(ops, i) {
        assert ops[i].Observe? && answers[i];
      }
    }
  }

  lemma {:induction false} UnprunedAnswers(ops: seq<Op>, answers: seq<bool>)
    requires IsTrace(ops, answers)
    ensures Unpruned(ops, answers) == Answers(ops)
  {
    if ops != [] {
      var k := |ops| - 1;
      forall i | 0 <= i < k ensures answers[..k][i] == Hid(ops[..k], i) {
        BeforePrefix(ops[..k], ops, i);
      }
      UnprunedAnswers(ops[..k], answers[..k]);
    }
  }

  function HiddenOf(ops: seq<Op>, answers: seq<bool>, p: string, k: nat): nat
    requires k <= |ops| == |answers|
  {
    if k == 0 then 0 else HiddenOf(ops, answers, p, k - 1) + if ops[k - 1].Observe? && ops[k - 1].path == p && answers[k - 1] then 1 else 0
  }

  lemma {:induction false} HiddenOfTrace(ops: seq<Op>, answers: seq<bool>, p: string, k: nat)
    requires IsTrace(ops, answers) && k <= |ops|
    ensures HiddenOf(ops, answers, p, k) == Hidden(ops, p, k)
  {
    if k > 0 {
      HiddenOfTrace(ops, answers, p, k - 1);
    }
  }

  /** A new suppressor over any sequence of calls. On a clock that never goes back it hides
      exactly the echoes; per path it hides no more observations than there were records; and
      its answers are those of the same calls without the prunes. */
  method RunSuppressor(ops: seq<Op>) returns (answers: seq<bool>)
    ensures |answers| == |ops| && forall k :: 0 <= k < |ops| && !ops[k].Observe? ==> !answers[k]
    ensures ClockedBy(ops) ==> forall k :: 0 <= k < |ops| && ops[k].Observe? ==> (answers[k] <==> Echo(ops, answers, k))
    ensures forall p :: HiddenOf(ops, answers, p, |ops|) <= Records(ops, p, |ops|)
    ensures ClockedBy(ops) ==> Unpruned(ops, answers) == Answers(WithoutPrunes(ops))
  {
    var suppressor := new SelfWriteSuppressor();
    answers := [];
    var i := 0;
    while i < |ops|
      invariant 0 <= i <= |ops| && |answers| == i && suppressor.entries == Before(ops, i)
      invariant forall k :: 0 <= k < i ==> answers[k] == Hid(ops, k)
    {
      var answer := false;
      match ops[i] {
        case Record(p, f, e) => suppressor.RecordWrite(p, f, e);
        case Observe(p, f, now) => answer := suppressor.ShouldSuppress(p, f, now);
        case Prune(now) => suppressor.PruneExpired(now);
      }
      answers := answers + [answer];
      i := i + 1;
    }
    if ClockedBy(ops) {
      forall k | 0 <= k < |ops| && ops[k].Observe? ensures answers[k] <==> Echo(ops, answers, k) {
        EchoIsHidden(ops, answers, k);
      }
      UnprunedAnswers(ops, answers);
      PrunedAgrees(ops);
    }
    forall p ensures HiddenOf(ops, answers, p, |ops|) <= Records(ops, p, |ops|) {
      HiddenOfTrace(ops, answers, p, |ops|);
      HiddenAtMostRecords(ops, p, |ops|);
    }
  }
}
