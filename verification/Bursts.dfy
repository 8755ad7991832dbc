// crates/myvault-core/src/watcher.rs: coalescing one burst of filesystem events. Paths are their
// text.

module Bursts {
  import opened Order

  datatype RawEvent = RawCreate(path: string) | RawModify(path: string) | RawDelete(path: string) | RawRename(from: string, to: string)

  datatype Normalized = Upsert(path: string) | Delete(path: string) | Rename(from: string, to: string)

  /** What an event means for one consumer. */
  function Meaning(e: RawEvent): Normalized {
    match e
    case RawCreate(p) => Upsert(p)
    case RawModify(p) => Upsert(p)
    case RawDelete(p) => Delete(p)
    case RawRename(f, t) => Rename(f, t)
  }

  /** The paths that exist, and what one event does to them. */
  function Apply(present: iset<string>, e: Normalized): iset<string> {
    match e
    case Upsert(p) => present + iset{p}
    case Delete(p) => present - iset{p}
    case Rename(f, t) => (present - iset{f}) + iset{t}
  }

  function Replay(present: iset<string>, events: seq<Normalized>): iset<string> {
    if events == [] then present else Apply(Replay(present, events[..|events| - 1]), events[|events| - 1])
  }

  function Meanings(raw: seq<RawEvent>): (r: seq<Normalized>)
    ensures |r| == |raw|
  {
    seq(|raw|, i requires 0 <= i < |raw| => Meaning(raw[i]))
  }

  // ----- The normalizer

  datatype Burst = Burst(byPath: map<string, Normalized>, renames: seq<Normalized>)

  function Pushed(b: Burst, e: Normalized): Burst {
    match e
    case Upsert(p) => b.(byPath := b.byPath[p := e])
    case Delete(p) => b.(byPath := b.byPath[p := e])
    case Rename(f, t) => Burst(b.byPath - {f} - {t}, b.renames + [e])
  }

  function PushedAll(events: seq<Normalized>): Burst {
    if events == [] then Burst(map[], []) else Pushed(PushedAll(events[..|events| - 1]), events[|events| - 1])
  }

  ghost predicate WellKept(b: Burst) {
    && (forall p :: p in b.byPath ==> b.byPath[p] == Upsert(p) || b.byPath[p] == Delete(p))
    && (forall i :: 0 <= i < |b.renames| ==> b.renames[i].Rename?)
  }

  ghost predicate KeysOf(b: Burst, keys: seq<string>) {
    Increasing(keys) && forall p :: p in keys <==> p in b.byPath
  }

  function Values(b: Burst, keys: seq<string>): seq<Normalized>
    requires forall p :: p in keys ==> p in b.byPath
  {
    seq(|keys|, i requires 0 <= i < |keys| => assert keys[i] in keys; b.byPath[keys[i]])
  }

  /** The renames in order, then the other events in path order. */
  ghost predicate Output(b: Burst, out: seq<Normalized>) {
    exists keys :: KeysOf(b, keys) && out == b.renames + Values(b, keys)
  }

  class BurstNormalizer {
    var byPath: map<string, Normalized>
    var renames: seq<Normalized>

    ghost function View(): Burst
      reads this
    {
      Burst(byPath, renames)
    }

    constructor ()
      ensures View() == PushedAll([])
    {
      byPath := map[];
      renames := [];
    }

    method Push(event: RawEvent)
      modifies this
      ensures View() == Pushed(old(View()), Meaning(event))
    {
      match event {
        case RawCreate(p) => byPath := byPath[p := Upsert(p)];
        case RawModify(p) => byPath := byPath[p := Upsert(p)];
        case RawDelete(p) => byPath := byPath[p := Delete(p)];
        case RawRename(f, t) =>
          byPath := byPath - {f};
          byPath := byPath - {t};
          renames := renames + [Rename(f, t)];
      }
    }

    method Finish() returns (out: seq<Normalized>)
      ensures Output(View(), out)
    {
      var keys := Sort(byPath.Keys);
      assert KeysOf(View(), keys);
      out := renames;
      var i := 0;
      while i < |keys|
        invariant 0 <= i <= |keys|
        invariant out == renames + Values(View(), keys)[..i]
      {
        assert keys[i] in keys;
        assert Values(View(), keys)[..i + 1] == Values(View(), keys)[..i] + [byPath[keys[i]]];
        out := out + [byPath[keys[i]]];
        i := i + 1;
      }
      assert Values(View(), keys)[..i] == Values(View(), keys);
    }
  }

  // ----- What a burst means, without the normalizer

  /** The paths that exist after the events of the file system. */
  ghost function Occurred(present: iset<string>, raw: seq<RawEvent>): iset<string> {
    if raw == [] then present
    else
      var before := Occurred(present, raw[..|raw| - 1]);
      match raw[|raw| - 1]
      case RawCreate(p) => before + iset{p}
      case RawModify(p) => before + iset{p}
      case RawDelete(p) => before - iset{p}
      case RawRename(f, t) => (before - iset{f}) + iset{t}
  }

  ghost predicate About(e: RawEvent, p: string) {
    if e.RawRename? then p == e.from || p == e.to else p == e.path
  }

  /** The last event that is about a path. */
  ghost function LastAbout(raw: seq<RawEvent>, p: string): (r: set<RawEvent>)
    ensures |r| <= 1
  {
    if raw == [] then {} else if About(raw[|raw| - 1], p) then {raw[|raw| - 1]} else LastAbout(raw[..|raw| - 1], p)
  }

  /** The renames of a burst, in order. */
  ghost function RenamesOf(raw: seq<RawEvent>): seq<Normalized> {
    if raw == [] then []
    else RenamesOf(raw[..|raw| - 1]) +
         (if raw[|raw| - 1].RawRename? then [Rename(raw[|raw| - 1].from, raw[|raw| - 1].to)] else [])
  }

  /** First all renames in their order; then, in path order, one event for each path whose last
      event is not a rename: a delete for a delete, an upsert for a create or a modify. */
  ghost predicate Condenses(raw: seq<RawEvent>, out: seq<Normalized>) {
    var k := |RenamesOf(raw)|;
    && k <= |out| && out[..k] == RenamesOf(raw)
    && (forall i :: k <= i < |out| ==> !out[i].Rename?)
    && (forall i, j :: k <= i < j < |out| ==> Below(out[i].path, out[j].path))
    && (forall p :: Delete(p) in out[k..] <==> RawDelete(p) in LastAbout(raw, p))
    && (forall p :: Upsert(p) in out[k..] <==> RawCreate(p) in LastAbout(raw, p) || RawModify(p) in LastAbout(raw, p))
  }

  lemma MeaningsInit(raw: seq<RawEvent>)
    requires raw != []
    ensures Meanings(raw)[..|raw| - 1] == Meanings(raw[..|raw| - 1]) && Meanings(raw)[|raw| - 1] == Meaning(raw[|raw| - 1])
  {
  }

  lemma {:induction false} OccurredIsReplayed(present: iset<string>, raw: seq<RawEvent>)
    ensures Replay(present, Meanings(raw)) == Occurred(present, raw)
  {
    if raw != [] {
      MeaningsInit(raw);
      OccurredIsReplayed(present, raw[..|raw| - 1]);
    }
  }

  /** The table of the normalizer holds a path exactly when its last event is not a rename. */
  ghost predicate Tabled(raw: seq<RawEvent>, b: Burst) {
    && b.renames == RenamesOf(raw)
    && (forall p :: p in b.byPath && b.byPath[p] == Delete(p) <==> RawDelete(p) in LastAbout(raw, p))
    && (forall p :: p in b.byPath && b.byPath[p] == Upsert(p) <==> RawCreate(p) in LastAbout(raw, p) || RawModify(p) in LastAbout(raw, p))
  }

  lemma TabledOneMore(raw: seq<RawEvent>, b: Burst, e: RawEvent)
    requires Tabled(raw, b) && WellKept(b)
    ensures Tabled(raw + [e], Pushed(b, Meaning(e)))
  {
    assert (raw + [e])[..|raw|] == raw;
    forall p ensures LastAbout(raw + [e], p) == if About(e, p) then {e} else LastAbout(raw, p) {
    }
  }

  lemma {:induction false} AlwaysTabled(raw: seq<RawEvent>)
    ensures Tabled(raw, PushedAll(Meanings(raw)))
  {
    if raw != [] {
      var init := raw[..|raw| - 1];
      MeaningsInit(raw);
      AlwaysTabled(init);
      AlwaysWellKept(Meanings(init));
      TabledOneMore(init, PushedAll(Meanings(init)), raw[|raw| - 1]);
      assert init + [raw[|raw| - 1]] == raw;
    }
  }

  lemma OutputCondenses(raw: seq<RawEvent>, out: seq<Normalized>)
    requires Output(PushedAll(Meanings(raw)), out)
    ensures Condenses(raw, out)
  {
    var b := PushedAll(Meanings(raw));
    AlwaysTabled(raw);
    AlwaysWellKept(Meanings(raw));
    var keys :| KeysOf(b, keys) && out == b.renames + Values(b, keys);
    var k := |b.renames|;
    assert out[..k] == b.renames && out[k..] == Values(b, keys);
    forall i | k <= i < |out| ensures !out[i].Rename? && out[i].path == keys[i - k] {
      PathOf(b, keys, i);
    }
    forall e ensures e in out[k..] <==> !e.Rename? && e.path in b.byPath && b.byPath[e.path] == e {
      ValueAt(b, keys, e);
    }
  }

  lemma ValueAt(b: Burst, keys: seq<string>, e: Normalized)
    requires WellKept(b) && KeysOf(b, keys)
    ensures e in Values(b, keys) <==> !e.Rename? && e.path in b.byPath && b.byPath[e.path] == e
  {
    if e in Values(b, keys) {
      var i :| 0 <= i < |keys| && Values(b, keys)[i] == e;
      assert keys[i] in keys;
    }
    if !e.Rename? && e.path in b.byPath && b.byPath[e.path] == e {
      var i :| 0 <= i < |keys| && keys[i] == e.path;
      assert Values(b, keys)[i] == e;
    }
  }

  /** A whole burst through the object: the output is the condensed burst and has its effect. */
  method Normalize(raw: seq<RawEvent>) returns (out: seq<Normalized>)
    ensures Condenses(raw, out)
    ensures forall present :: Replay(present, out) == Occurred(present, raw)
    ensures forall i, j :: 0 <= i < j < |out| && !out[i].Rename? && !out[j].Rename? ==> out[i].path != out[j].path
    ensures Output(PushedAll(Meanings(raw)), out)
  {
    var normalizer := new BurstNormalizer();
    var i := 0;
    while i < |raw|
      invariant 0 <= i <= |raw|
      invariant normalizer.View() == PushedAll(Meanings(raw)[..i])
    {
      assert Meanings(raw)[..i + 1][..i] == Meanings(raw)[..i];
      normalizer.Push(raw[i]);
      i := i + 1;
    }
    assert Meanings(raw)[..i] == Meanings(raw);
    out := normalizer.Finish();
    forall present ensures Replay(present, out) == Occurred(present, raw) {
      SameEffect(Meanings(raw), out, present);
      OccurredIsReplayed(present, raw);
    }
    OutputCondenses(raw, out);
    OncePerPath(Meanings(raw), out);
  }

  // ----- The output means what the input means

  lemma {:induction false} AlwaysWellKept(events: seq<Normalized>)
    ensures WellKept(PushedAll(events))
  {
    if events != [] {
      AlwaysWellKept(events[..|events| - 1]);
    }
  }

  /** The kept events on top of what the renames leave. */
  ghost function Overlay(present: iset<string>, b: Burst): iset<string> {
    iset p | (if p in b.byPath then b.byPath[p].Upsert? else p in present)
  }

  lemma OverlayStep(present: iset<string>, b: Burst, e: Normalized)
    requires WellKept(b)
    ensures Overlay(Replay(present, Pushed(b, e).renames), Pushed(b, e)) == Apply(Overlay(Replay(present, b.renames), b), e)
  {
    if e.Rename? {
      assert (b.renames + [e])[..|b.renames|] == b.renames;
    }
  }

  lemma {:induction false} OverlayAll(present: iset<string>, events: seq<Normalized>)
    ensures Overlay(Replay(present, PushedAll(events).renames), PushedAll(events)) == Replay(present, events)
  {
    if events == [] {
      assert Overlay(present, Burst(map[], [])) == present;
    } else {
      var init := events[..|events| - 1];
      AlwaysWellKept(init);
      OverlayAll(present, init);
      OverlayStep(present, PushedAll(init), events[|events| - 1]);
    }
  }

  lemma {:induction false} ReplayConcat(present: iset<string>, a: seq<Normalized>, b: seq<Normalized>)
    ensures Replay(present, a + b) == Replay(Replay(present, a), b)
  {
    if b == [] {
      assert a + b == a;
    } else {
      assert (a + b)[..|a + b| - 1] == a + b[..|b| - 1];
      ReplayConcat(present, a, b[..|b| - 1]);
    }
  }

  /** Events about different paths act independently of each other. */
  lemma {:induction false} ReplayValues(present: iset<string>, b: Burst, keys: seq<string>, k: nat, p: string)
    requires WellKept(b) && Increasing(keys) && (forall q :: q in keys ==> q in b.byPath) && k <= |keys|
    ensures p in Replay(present, Values(b, keys)[..k]) <==> if p in keys[..k] then b.byPath[p].Upsert? else p in present
  {
    var values := Values(b, keys);
    if k > 0 {
      assert values[..k][..k - 1] == values[..k - 1] && keys[..k] == keys[..k - 1] + [keys[k - 1]];
      ReplayValues(present, b, keys, k - 1, p);
      assert keys[k - 1] in keys;
      if p == keys[k - 1] && p in keys[..k - 1] {
        var j :| 0 <= j < k - 1 && keys[j] == p;
        BelowIrreflexive(p);
      }
    }
  }

  /** Every output of the normalizer has, on every set of existing paths, the effect of the
      events it was given. */
  lemma SameEffect(events: seq<Normalized>, out: seq<Normalized>, present: iset<string>)
    requires Output(PushedAll(events), out)
    ensures Replay(present, out) == Replay(present, events)
  {
    var b := PushedAll(events);
    var keys :| KeysOf(b, keys) && out == b.renames + Values(b, keys);
    AlwaysWellKept(events);
    OverlayAll(present, events);
    var after := Replay(present, b.renames);
    ReplayConcat(present, b.renames, Values(b, keys));
    assert Values(b, keys)[..|keys|] == Values(b, keys) && keys[..|keys|] == keys;
    forall p ensures p in Replay(after, Values(b, keys)) <==> p in Overlay(after, b) {
      ReplayValues(after, b, keys, |keys|, p);
    }
    assert Replay(after, Values(b, keys)) == Overlay(after, b);
  }

  lemma OncePerPath(events: seq<Normalized>, out: seq<Normalized>)
    requires Output(PushedAll(events), out)
    ensures forall i, j :: 0 <= i < j < |out| && !out[i].Rename? && !out[j].Rename? ==> out[i].path != out[j].path
  {
    var b := PushedAll(events);
    var keys :| KeysOf(b, keys) && out == b.renames + Values(b, keys);
    AlwaysWellKept(events);
    forall i, j | 0 <= i < j < |out| && !out[i].Rename? && !out[j].Rename? ensures out[i].path != out[j].path {
      PathOf(b, keys, i);
      PathOf(b, keys, j);
      BelowIrreflexive(out[i].path);
    }
  }

  /** Behind the renames, event `i` of an output is about key `i`. */
  lemma PathOf(b: Burst, keys: seq<string>, i: nat)
    requires WellKept(b) && KeysOf(b, keys) && i < |b.renames + Values(b, keys)|
    ensures var e := (b.renames + Values(b, keys))[i];
            if i < |b.renames| then e.Rename? else !e.Rename? && e.path == keys[i - |b.renames|]
  {
    if i >= |b.renames| {
      assert keys[i - |b.renames|] in keys;
    }
  }

  // ----- Normalizing twice

  lemma {:induction false} PushRenames(renames: seq<Normalized>, k: nat)
    requires k <= |renames| && forall i :: 0 <= i < |renames| ==> renames[i].Rename?
    ensures PushedAll(renames[..k]) == Burst(map[], renames[..k])
  {
    if k > 0 {
      assert renames[..k][..k - 1] == renames[..k - 1] && renames[..k] == renames[..k - 1] + [renames[k - 1]];
      PushRenames(renames, k - 1);
    }
  }

  /** `again` has kept exactly the values of `b` at these keys. */
  ghost predicate KeptAt(b: Burst, keys: seq<string>, again: Burst) {
    && again.renames == b.renames
    && (forall p :: p in again.byPath <==> p in keys)
    && (forall p :: p in again.byPath ==> p in b.byPath && again.byPath[p] == b.byPath[p])
  }

  lemma KeptOneMore(b: Burst, keys: seq<string>, key: string, again: Burst)
    requires WellKept(b) && key in b.byPath && KeptAt(b, keys, again)
    ensures KeptAt(b, keys + [key], Pushed(again, b.byPath[key]))
  {
  }

  lemma PushedOneMore(events: seq<Normalized>, e: Normalized)
    ensures PushedAll(events + [e]) == Pushed(PushedAll(events), e)
  {
    assert (events + [e])[..|events|] == events;
  }

  lemma ValuesOneMore(b: Burst, keys: seq<string>, key: string)
    requires (forall p :: p in keys ==> p in b.byPath) && key in b.byPath
    ensures b.renames + Values(b, keys + [key]) == b.renames + Values(b, keys) + [b.byPath[key]]
  {
  }

  lemma {:induction false} PushValues(b: Burst, keys: seq<string>)
    requires WellKept(b) && forall p :: p in keys ==> p in b.byPath
    ensures KeptAt(b, keys, PushedAll(b.renames + Values(b, keys)))
  {
    if keys == [] {
      assert b.renames + Values(b, keys) == b.renames[..|b.renames|];
      PushRenames(b.renames, |b.renames|);
    } else {
      var init, key := keys[..|keys| - 1], keys[|keys| - 1];
      assert keys == init + [key] && key in keys;
      PushValues(b, init);
      KeptOneMore(b, init, key, PushedAll(b.renames + Values(b, init)));
      ValuesOneMore(b, init, key);
      PushedOneMore(b.renames + Values(b, init), b.byPath[key]);
    }
  }

  /** The second pass ends with what the first one ended with. */
  lemma SecondPass(b: Burst, keys: seq<string>)
    requires WellKept(b) && KeysOf(b, keys)
    ensures PushedAll(b.renames + Values(b, keys)) == b
  {
    PushValues(b, keys);
  }

  /** Normalizing an output again gives it back unchanged. */
  lemma Idempotent(events: seq<Normalized>, out: seq<Normalized>, again: seq<Normalized>)
    requires Output(PushedAll(events), out) && Output(PushedAll(out), again)
    ensures again == out
  {
    var b := PushedAll(events);
    var keys :| KeysOf(b, keys) && out == b.renames + Values(b, keys);
    AlwaysWellKept(events);
    SecondPass(b, keys);
    var keys2 :| KeysOf(b, keys2) && again == b.renames + Values(b, keys2);
    IncreasingUnique(keys, keys2);
  }
}
