/**
The destination side of a session copy (agentwrapper/accounts/claude_session.go) as a sequence of atomic steps:
one directory is created, or one file is replaced by renaming a complete temporary over it.
*/
module CopySteps {

  /** A path relative to an account directory, component by component. */
  type Path = seq<string>

  /** Other stands for symlinks and special files. */
  datatype Entry = File(data: string) | Directory | Other

  type Entries = map<Path, Entry>

  datatype Step = EnsureDir(path: Path) | Copy(path: Path, data: string)

  /** A regular file at least as large as the one to copy is kept. */
  predicate Kept(e: Entries, path: Path, data: string) {
    path in e && e[path].File? && |e[path].data| >= |data|
  }

  /** The step has nothing left to do. */
  predicate Settled(e: Entries, step: Step) {
    match step
    case EnsureDir(p) => p in e && e[p].Directory?
    case Copy(p, data) => Kept(e, p, data)
  }

  /** The copy stops with an error: a directory is expected where something else is, or the other way round. */
  predicate Refuses(e: Entries, step: Step) {
    match step
    case EnsureDir(p) => p in e && !e[p].Directory?
    case Copy(p, data) => p in e && e[p].Directory?
  }

  function Apply(e: Entries, step: Step): Entries {
    if Settled(e, step) || Refuses(e, step) then e
    else match step
      case EnsureDir(p) => e[p := Directory]
      case Copy(p, data) => e[p := File(data)]
  }

  /** The entries after the steps, up to the first one that is refused. */
  function ApplyAll(e: Entries, steps: seq<Step>): Entries
    decreases |steps|
  {
    if steps == [] || Refuses(e, steps[0]) then e else ApplyAll(Apply(e, steps[0]), steps[1..])
  }

  predicate AllAccepted(e: Entries, steps: seq<Step>)
    decreases |steps|
  {
    steps == [] || (!Refuses(e, steps[0]) && AllAccepted(Apply(e, steps[0]), steps[1..]))
  }

  // ----- Running with a crash -----

  /** What a run leaves behind: temps are staged copies that were never renamed, power is the number of changes
      to the disk before it stops. */
  datatype State = State(entries: Entries, temps: seq<(Path, string)>, power: nat)

  datatype Outcome = Done | Refused(path: Path) | Crashed

  function Do(s: State, step: Step): (State, Outcome) {
    if Settled(s.entries, step) then (s, Done)
    else match step
      case EnsureDir(p) =>
        if Refuses(s.entries, step) then (s, Refused(p))
        else if s.power == 0 then (s, Crashed)
        else (s.(entries := Apply(s.entries, step), power := s.power - 1), Done)
      case Copy(p, data) =>
        // Staged first, renamed second; a refused rename removes its temporary again.
        if s.power == 0 then (s, Crashed)
        else if s.power == 1 then (s.(temps := s.temps + [(p, data)], power := 0), Crashed)
        else if Refuses(s.entries, step) then (s.(power := s.power - 2), Refused(p))
        else (s.(entries := Apply(s.entries, step), power := s.power - 2), Done)
  }

  function Run(s: State, steps: seq<Step>): (State, Outcome)
    decreases |steps|
  {
    if steps == [] then (s, Done)
    else
      var r := Do(s, steps[0]);
      if r.1.Done? then Run(r.0, steps[1..]) else r
  }

  lemma {:induction false} RunConcat(s: State, a: seq<Step>, b: seq<Step>)
    ensures Run(s, a + b) == if Run(s, a).1.Done? then Run(Run(s, a).0, b) else Run(s, a)
    decreases |a|
  {
    if a == [] {
      assert a + b == b;
    } else {
      hide Do;
      assert (a + b)[0] == a[0] && (a + b)[1..] == a[1..] + b;
      RunConcat(Do(s, a[0]).0, a[1..], b);
    }
  }

  // ----- Every crash point is a point between two steps -----

  /** Whatever the power, a run has applied some of the first steps completely and nothing else. */
  lemma {:induction false} RunIsPrefix(s: State, steps: seq<Step>) returns (n: nat)
    ensures n <= |steps| && AllAccepted(s.entries, steps[..n])
    ensures Run(s, steps).0.entries == ApplyAll(s.entries, steps[..n])
    ensures Run(s, steps).1.Done? ==> n == |steps|
    ensures Run(s, steps).1.Refused? ==> n < |steps| && Refuses(Run(s, steps).0.entries, steps[n])
    decreases |steps|
  {
    if steps == [] {
      n := 0;
    } else {
      hide Settled, Refuses, Apply;
      var r := Do(s, steps[0]);
      DoIsApply(s, steps[0]);
      if r.1.Done? {
        var m := RunIsPrefix(r.0, steps[1..]);
        n := m + 1;
        assert steps[..n][1..] == steps[1..][..m];
      } else {
        n := 0;
      }
    }
  }

  lemma DoIsApply(s: State, step: Step)
    ensures Do(s, step).1.Done? ==> !Refuses(s.entries, step) && Do(s, step).0.entries == Apply(s.entries, step)
    ensures !Do(s, step).1.Done? ==> Do(s, step).0.entries == s.entries
    ensures Do(s, step).1.Refused? ==> Refuses(s.entries, step)
  {
  }

  /** With enough power for every step the run ends, in the entries that the steps alone determine. */
  lemma {:induction false} EnoughPower(s: State, steps: seq<Step>)
    requires s.power >= 2 * |steps|
    ensures Run(s, steps).0.entries == ApplyAll(s.entries, steps)
    ensures Run(s, steps).1.Done? <==> AllAccepted(s.entries, steps)
    ensures !Run(s, steps).1.Crashed?
    decreases |steps|
  {
    if steps != [] {
      DoWithPower(s, steps[0]);
      hide Do, Settled, Refuses, Apply;
      if !Refuses(s.entries, steps[0]) {
        EnoughPower(Do(s, steps[0]).0, steps[1..]);
      }
    }
  }

  lemma DoWithPower(s: State, step: Step)
    requires s.power >= 2
    ensures Do(s, step).1.Done? <==> !Refuses(s.entries, step)
    ensures Do(s, step).1.Refused? <==> Refuses(s.entries, step)
    ensures Do(s, step).1.Done? ==> Do(s, step).0.entries == Apply(s.entries, step)
    ensures !Do(s, step).1.Done? ==> Do(s, step).0.entries == s.entries
    ensures Do(s, step).0.power >= s.power - 2
  {
  }

  // ----- What is settled stays settled -----

  lemma ApplySettles(e: Entries, step: Step)
    requires !Refuses(e, step)
    ensures Settled(Apply(e, step), step)
  {
  }

  lemma SettledStays(e: Entries, step: Step, other: Step)
    requires Settled(e, step)
    ensures Settled(Apply(e, other), step)
  {
  }

  predicate AllSettled(e: Entries, steps: seq<Step>) {
    forall i :: 0 <= i < |steps| ==> Settled(e, steps[i])
  }

  /** Steps that were applied have nothing left to do, however many steps follow. */
  lemma {:induction false} AppliedIsSettled(e: Entries, steps: seq<Step>, earlier: seq<Step>)
    requires AllAccepted(e, steps) && AllSettled(e, earlier)
    ensures AllSettled(ApplyAll(e, steps), earlier + steps)
    decreases |steps|
  {
    if steps == [] {
      assert earlier + steps == earlier;
    } else {
      hide Settled, Refuses, Apply;
      var e' := Apply(e, steps[0]);
      ApplySettles(e, steps[0]);
      forall i | 0 <= i < |earlier| ensures Settled(e', earlier[i]) { SettledStays(e, earlier[i], steps[0]); }
      AppliedIsSettled(e', steps[1..], earlier + [steps[0]]);
      assert earlier + [steps[0]] + steps[1..] == earlier + steps;
    }
  }

  /** Applying settled steps again changes nothing and is not refused. */
  lemma {:induction false} SettledIsNoWork(e: Entries, steps: seq<Step>, more: seq<Step>)
    requires AllSettled(e, steps)
    ensures ApplyAll(e, steps + more) == ApplyAll(e, more)
    ensures AllAccepted(e, steps + more) <==> AllAccepted(e, more)
    decreases |steps|
  {
    if steps == [] {
      assert steps + more == more;
    } else {
      assert (steps + more)[0] == steps[0] && (steps + more)[1..] == steps[1..] + more;
      SettledNotRefused(e, steps[0]);
      hide Settled, Refuses, Apply;
      SettledIsNoWork(e, steps[1..], more);
    }
  }

  lemma SettledNotRefused(e: Entries, step: Step)
    requires Settled(e, step)
    ensures !Refuses(e, step) && Apply(e, step) == e
  {
  }

  lemma {:induction false} ApplyConcat(e: Entries, a: seq<Step>, b: seq<Step>)
    requires AllAccepted(e, a)
    ensures ApplyAll(e, a + b) == ApplyAll(ApplyAll(e, a), b)
    ensures AllAccepted(e, a + b) <==> AllAccepted(ApplyAll(e, a), b)
    decreases |a|
  {
    if a == [] {
      assert a + b == b;
    } else {
      hide Settled, Refuses, Apply;
      assert (a + b)[0] == a[0] && (a + b)[1..] == a[1..] + b;
      ApplyConcat(Apply(e, a[0]), a[1..], b);
    }
  }

  /** Steps that were applied once and are applied again in front of the rest change nothing. */
  lemma ApplyAgain(e: Entries, a: seq<Step>, b: seq<Step>)
    requires AllAccepted(e, a)
    ensures ApplyAll(ApplyAll(e, a), a + b) == ApplyAll(e, a + b)
    ensures AllAccepted(ApplyAll(e, a), a + b) <==> AllAccepted(e, a + b)
  {
    hide *;
    NothingSettled(e);
    AppliedIsSettled(e, a, []);
    assert [] + a == a;
    SettledIsNoWork(ApplyAll(e, a), a, b);
    ApplyConcat(e, a, b);
  }

  /** A rerun after a crash at any point ends where an uninterrupted run ends, and with the same success;
      leftover temporaries do not matter. */
  lemma {:induction false} RerunAfterCrash(s: State, steps: seq<Step>, s': State, again: State)
    requires again.entries == Run(s, steps).0.entries && again.power >= 2 * |steps|
    requires s'.entries == s.entries && s'.power >= 2 * |steps|
    ensures Run(again, steps).0.entries == Run(s', steps).0.entries
    ensures Run(again, steps).1.Done? <==> Run(s', steps).1.Done?
  {
    hide *;
    var n := RunIsPrefix(s, steps);
    RerunFrom(s.entries, steps, n);
    EnoughPower(again, steps);
    EnoughPower(s', steps);
  }

  lemma RerunFrom(e: Entries, steps: seq<Step>, n: nat)
    requires n <= |steps| && AllAccepted(e, steps[..n])
    ensures ApplyAll(ApplyAll(e, steps[..n]), steps) == ApplyAll(e, steps)
    ensures AllAccepted(ApplyAll(e, steps[..n]), steps) <==> AllAccepted(e, steps)
  {
    hide *;
    assert steps == steps[..n] + steps[n..];
    ApplyAgain(e, steps[..n], steps[n..]);
  }

  /** The entries after one run for each given power, every run starting over on what the last one left. */
  function Attempts(e: Entries, powers: seq<nat>, steps: seq<Step>): Entries
    decreases |powers|
  {
    if powers == [] then e else Attempts(Run(State(e, [], powers[0]), steps).0.entries, powers[1..], steps)
  }

  /** Any number of interrupted runs change nothing about where a run that is left alone ends. */
  lemma {:induction false} RerunAfterCrashes(e: Entries, powers: seq<nat>, steps: seq<Step>, enough: nat)
    requires enough >= 2 * |steps|
    ensures Run(State(Attempts(e, powers, steps), [], enough), steps).0.entries ==
            Run(State(e, [], enough), steps).0.entries
    ensures Run(State(Attempts(e, powers, steps), [], enough), steps).1.Done? <==>
            Run(State(e, [], enough), steps).1.Done?
    decreases |powers|
  {
    if powers != [] {
      var next := Run(State(e, [], powers[0]), steps).0.entries;
      RerunAfterCrashes(next, powers[1..], steps, enough);
      hide Run, Do, Apply;
      RerunAfterCrash(State(e, [], powers[0]), steps, State(e, [], enough), State(next, [], enough));
    }
  }

  lemma NothingSettled(e: Entries)
    ensures AllSettled(e, [])
  {
  }

  // ----- What no step does -----

  /** Files never shrink, directories stay, and nothing else ever becomes a directory. */
  ghost predicate Grows(e: Entries, e': Entries) {
    && (forall p <- e :: e[p].File? ==> p in e' && e'[p].File? && |e'[p].data| >= |e[p].data|)
    && (forall p <- e :: e[p].Directory? ==> p in e' && e'[p].Directory?)
    && (forall p <- e :: !e[p].Directory? ==> p in e' && !e'[p].Directory?)
  }

  /** Every file is either the one that was there, or a complete source file. */
  ghost predicate OldOrCopied(e: Entries, e': Entries, steps: seq<Step>) {
    forall p <- e' :: e'[p].File? ==> (p in e && e[p] == e'[p]) || Copy(p, e'[p].data) in steps
  }

  predicate SameAt(e: Entries, e': Entries, p: Path) {
    (p in e <==> p in e') && (p in e ==> e[p] == e'[p])
  }

  /** Only paths of the steps change. */
  ghost predicate OnlyTouches(e: Entries, e': Entries, steps: seq<Step>) {
    forall p :: (forall i :: 0 <= i < |steps| ==> steps[i].path != p) ==> SameAt(e, e', p)
  }

  lemma {:induction false} ApplyAllEffect(e: Entries, steps: seq<Step>)
    ensures Grows(e, ApplyAll(e, steps))
    ensures OldOrCopied(e, ApplyAll(e, steps), steps)
    ensures OnlyTouches(e, ApplyAll(e, steps), steps)
    decreases |steps|
  {
    if steps != [] && !Refuses(e, steps[0]) {
      hide Settled, Refuses;
      var e' := Apply(e, steps[0]);
      ApplyAllEffect(e', steps[1..]);
      ApplyEffect(e, steps[0]);
      ComposeEffects(e, e', ApplyAll(e', steps[1..]), steps);
    }
  }

  lemma ApplyEffect(e: Entries, step: Step)
    ensures Grows(e, Apply(e, step)) && OldOrCopied(e, Apply(e, step), [step])
    ensures OnlyTouches(e, Apply(e, step), [step])
  {
    assert [step][0] == step;
  }

  lemma ComposeEffects(e: Entries, e': Entries, e'': Entries, steps: seq<Step>)
    requires steps != [] && Grows(e, e') && Grows(e', e'')
    requires OldOrCopied(e, e', [steps[0]]) && OldOrCopied(e', e'', steps[1..])
    requires OnlyTouches(e, e', [steps[0]]) && OnlyTouches(e', e'', steps[1..])
    ensures Grows(e, e'') && OldOrCopied(e, e'', steps) && OnlyTouches(e, e'', steps)
  {
    assert steps == [steps[0]] + steps[1..];
    forall p | forall i :: 0 <= i < |steps| ==> steps[i].path != p
      ensures SameAt(e, e'', p) {
      assert forall i :: 0 <= i < |steps[1..]| ==> steps[1..][i].path == steps[i + 1].path;
      assert steps[0].path != p;
      assert SameAt(e, e', p) && SameAt(e', e'', p);
    }
  }

  /** At every crash point: no file has shrunk, every file is an old or a complete new one, and nothing but the
      paths of the steps has changed. */
  lemma CrashSafe(s: State, steps: seq<Step>)
    ensures Grows(s.entries, Run(s, steps).0.entries)
    ensures OldOrCopied(s.entries, Run(s, steps).0.entries, steps)
    ensures OnlyTouches(s.entries, Run(s, steps).0.entries, steps)
  {
    hide Run, ApplyAll, AllAccepted, Refuses;
    var n := RunIsPrefix(s, steps);
    ApplyAllEffect(s.entries, steps[..n]);
    PrefixEffects(s.entries, Run(s, steps).0.entries, steps, n);
  }

  lemma PrefixEffects(e: Entries, e': Entries, steps: seq<Step>, n: nat)
    requires n <= |steps| && OldOrCopied(e, e', steps[..n]) && OnlyTouches(e, e', steps[..n])
    ensures OldOrCopied(e, e', steps) && OnlyTouches(e, e', steps)
  {
    forall p | forall i :: 0 <= i < |steps| ==> steps[i].path != p
      ensures SameAt(e, e', p) {
      assert forall i :: 0 <= i < n ==> steps[..n][i].path == steps[i].path;
    }
  }

  /** After a finished run everything is in place. */
  lemma FinishedRun(s: State, steps: seq<Step>)
    requires Run(s, steps).1.Done?
    ensures AllSettled(Run(s, steps).0.entries, steps)
  {
    hide Run, ApplyAll, AllAccepted, Refuses;
    var n := RunIsPrefix(s, steps);
    assert steps[..n] == steps;
    NothingSettled(s.entries);
    AppliedIsSettled(s.entries, steps, []);
    assert [] + steps == steps;
  }

  /** Where a does not touch p: a run that changed p has finished a before. */
  lemma ChangedAfter(s: State, a: seq<Step>, b: seq<Step>, p: Path)
    requires forall i :: 0 <= i < |a| ==> a[i].path != p
    ensures SameAt(s.entries, Run(s, a + b).0.entries, p) || AllSettled(Run(s, a + b).0.entries, a)
  {
    hide Run, ApplyAll, AllAccepted, Refuses, Settled;
    var n := RunIsPrefix(s, a + b);
    if n <= |a| {
      assert (a + b)[..n] == a[..n];
      ApplyAllEffect(s.entries, a[..n]);
    } else {
      NothingSettled(s.entries);
      AppliedIsSettled(s.entries, (a + b)[..n], []);
      assert forall i :: 0 <= i < |a| ==> ([] + (a + b)[..n])[i] == a[i];
    }
  }

  /** A temporary is left behind only by a crash, at most one, and it is a copy of one of the steps. */
  lemma {:induction false} TempsLeft(s: State, steps: seq<Step>)
    ensures !Run(s, steps).1.Crashed? ==> Run(s, steps).0.temps == s.temps
    ensures Run(s, steps).1.Crashed? ==>
              || Run(s, steps).0.temps == s.temps
              || exists step <- steps :: step.Copy? && Run(s, steps).0.temps == s.temps + [(step.path, step.data)]
    decreases |steps|
  {
    if steps != [] {
      hide Settled, Refuses, Apply;
      var r := Do(s, steps[0]);
      if r.1.Done? {
        TempsLeft(r.0, steps[1..]);
        assert forall step <- steps[1..] :: step in steps;
      }
    }
  }
}
