/**
Copying one claude session between accounts (agentwrapper/accounts/claude_session.go): the destination is a disk that
changes one step at a time and may stop after any change.
*/
module SessionCopy {
  import opened Wrappers
  import opened GoText
  import opened CopySteps
  import opened SessionPlan

  // ----- The guards -----

  predicate IsAlnum(c: char) {
    'A' <= c <= 'Z' || 'a' <= c <= 'z' || '0' <= c <= '9'
  }

  predicate ValidSessionID(sid: string) {
    8 <= |sid| <= 64 && forall i :: 0 <= i < |sid| ==> IsAlnum(sid[i]) || sid[i] == '-'
  }

  datatype CopyResult =
    | InvalidSession
    | SameAccount
    | InvalidAlias(alias: string)
    | NoAccount(alias: string)
    | NotFound
    | Ran(outcome: Outcome)

  /** Why nothing is copied at all, if so.  source is the root of the source account. */
  function Refusal(from: string, to: string, sid: string, source: Tree, toExists: bool): Option<CopyResult> {
    if !ValidSessionID(sid) then Some(InvalidSession)
    else if from == to then Some(SameAccount)
    else if !ShortName(from) then Some(InvalidAlias(from))
    else if !ShortName(to) then Some(InvalidAlias(to))
    else if !source.Dir? then Some(NoAccount(from))
    else if !toExists then Some(NoAccount(to))
    else if Jsonls(Listing(source.children, "projects"), sid) == [] then Some(NotFound)
    else None
  }

  // ----- The destination -----

  class Disk {
    var entries: Entries
    var temps: seq<(Path, string)>
    var power: nat

    constructor (s: State)
      ensures Now() == s
    {
      entries, temps, power := s.entries, s.temps, s.power;
    }

    function Now(): State
      reads this
    {
      State(entries, temps, power)
    }

    /** One turn of the loop in ensureRealDirs. */
    method EnsureDirAt(path: Path) returns (o: Outcome)
      modifies this
      ensures (Now(), o) == Do(old(Now()), EnsureDir(path))
    {
      if path in entries {
        o := if entries[path].Directory? then Done else Refused(path);
      } else if power == 0 {
        o := Crashed;
      } else {
        entries, power, o := entries[path := Directory], power - 1, Done;
      }
    }

    method EnsureRealDirs(rel: Path) returns (o: Outcome)
      modifies this
      ensures (Now(), o) == Run(old(Now()), DirSteps(rel))
    {
      hide Do;
      o := Done;
      for i := 0 to |rel|
        invariant o.Done? && (Now(), o) == Run(old(Now()), DirSteps(rel[..i]))
      {
        DirStepsGrow(old(Now()), rel, i);
        o := EnsureDirAt(rel[..i + 1]);
        if !o.Done? { return; }
      }
      assert rel[..|rel|] == rel;
    }

    /** The parents first; an existing regular file of at least the size is kept, anything else is replaced by rename. */
    method CopySessionFile(rel: Path, data: string) returns (o: Outcome)
      requires rel != []
      modifies this
      ensures (Now(), o) == Run(old(Now()), FileSteps(rel, data))
    {
      RunConcat(Now(), DirSteps(rel[..|rel| - 1]), [Copy(rel, data)]);
      o := EnsureRealDirs(rel[..|rel| - 1]);
      if o.Done? {
        o := StageAndRename(rel, data);
      }
    }

    method StageAndRename(rel: Path, data: string) returns (o: Outcome)
      modifies this
      ensures (Now(), o) == Run(old(Now()), [Copy(rel, data)])
    {
      RunOne(Now(), Copy(rel, data));
      if rel in entries && entries[rel].File? && |entries[rel].data| >= |data| {
        return Done;
      }
      if power == 0 {
        return Crashed;
      }
      temps, power := temps + [(rel, data)], power - 1;
      if power == 0 {
        return Crashed;
      }
      power := power - 1;
      temps := temps[..|temps| - 1];
      if rel in entries && entries[rel].Directory? {
        return Refused(rel);
      }
      entries := entries[rel := File(data)];
      return Done;
    }

    method CopyTree(children: seq<Child>, rel: Path) returns (o: Outcome)
      modifies this
      ensures (Now(), o) == Run(old(Now()), TreeSteps(children, rel))
      decreases children, |children| + 1
    {
      RunConcat(Now(), DirSteps(rel), ChildrenSteps(children, rel));
      o := EnsureRealDirs(rel);
      if !o.Done? { return; }
      ghost var start := Now();
      assert children[0..] == children;
      for i := 0 to |children|
        invariant o.Done? && Run(start, ChildrenSteps(children, rel)) == Run(Now(), ChildrenSteps(children[i..], rel))
      {
        RestStarts(children, i);
        RunConcat(Now(), ChildSteps(children[i], rel), ChildrenSteps(children[i + 1..], rel));
        o := CopyChild(children[i], rel);
        if !o.Done? { return; }
      }
    }

    method CopyChild(c: Child, rel: Path) returns (o: Outcome)
      modifies this
      ensures (Now(), o) == Run(old(Now()), ChildSteps(c, rel))
      decreases c
    {
      match c.tree
      case Leaf(data) => o := CopySessionFile(rel + [c.name], data);
      case Dir(cs) => o := CopyTree(cs, rel + [c.name]);
      case Skipped => o := Done;
    }

    method CopyProjectTrees(projects: seq<Child>, sid: string) returns (o: Outcome)
      modifies this
      ensures (Now(), o) == Run(old(Now()), ProjectTreeSteps(projects, sid))
    {
      o := Done;
      assert projects[0..] == projects;
      for i := 0 to |projects|
        invariant o.Done?
        invariant Run(old(Now()), ProjectTreeSteps(projects, sid)) == Run(Now(), ProjectTreeSteps(projects[i..], sid))
      {
        RestStarts(projects, i);
        RunConcat(Now(), OneProjectSteps(projects[i], sid), ProjectTreeSteps(projects[i + 1..], sid));
        if projects[i].tree.Dir? {
          var sessionDir := DirAt(projects[i].tree.children, sid);
          if sessionDir.Some? {
            o := CopyTree(sessionDir.value, ["projects", projects[i].name, sid]);
            if !o.Done? { return; }
          }
        }
      }
    }

    method CopyStore(account: seq<Child>, store: string, sid: string) returns (o: Outcome)
      modifies this
      ensures (Now(), o) == Run(old(Now()), StoreSteps(account, store, sid))
    {
      o := Done;
      var sessions := DirAt(account, store);
      if sessions.Some? {
        var sessionDir := DirAt(sessions.value, sid);
        if sessionDir.Some? {
          o := CopyTree(sessionDir.value, [store, sid]);
        }
      }
    }

    method CopyTodos(todos: seq<Child>, sid: string) returns (o: Outcome)
      modifies this
      ensures (Now(), o) == Run(old(Now()), TodoSteps(todos, sid))
    {
      o := Done;
      assert todos[0..] == todos;
      for i := 0 to |todos|
        invariant o.Done? && Run(old(Now()), TodoSteps(todos, sid)) == Run(Now(), TodoSteps(todos[i..], sid))
      {
        RestStarts(todos, i);
        RunConcat(Now(), OneTodoSteps(todos[i], sid), TodoSteps(todos[i + 1..], sid));
        if IsTodo(todos[i].name, sid) && todos[i].tree.Leaf? {
          o := CopySessionFile(["todos", todos[i].name], todos[i].tree.data);
          if !o.Done? { return; }
        }
      }
    }

    method CopyJsonls(found: seq<(string, string)>, sid: string) returns (o: Outcome)
      modifies this
      ensures (Now(), o) == Run(old(Now()), JsonlSteps(found, sid))
    {
      o := Done;
      assert found[0..] == found;
      for i := 0 to |found|
        invariant o.Done? && Run(old(Now()), JsonlSteps(found, sid)) == Run(Now(), JsonlSteps(found[i..], sid))
      {
        RestStarts(found, i);
        RunConcat(Now(), FileSteps(JsonlPath(found[i].0, sid), found[i].1), JsonlSteps(found[i + 1..], sid));
        o := CopySessionFile(JsonlPath(found[i].0, sid), found[i].1);
        if !o.Done? { return; }
      }
    }

    method CopyAncillary(account: seq<Child>, sid: string) returns (o: Outcome)
      modifies this
      ensures (Now(), o) == Run(old(Now()), AncillarySteps(account, sid))
    {
      hide Run, ProjectTreeSteps, StoreSteps, TodoSteps, Listing;
      ghost var a := ProjectTreeSteps(Listing(account, "projects"), sid);
      ghost var b := StoreSteps(account, "file-history", sid);
      ghost var c := StoreSteps(account, "session-env", sid);
      ghost var d := TodoSteps(Listing(account, "todos"), sid);
      RunFour(Now(), a, b, c, d);
      o := CopyProjectTrees(Listing(account, "projects"), sid);
      if !o.Done? { return; }
      o := CopyStore(account, "file-history", sid);
      if !o.Done? { return; }
      o := CopyStore(account, "session-env", sid);
      if !o.Done? { return; }
      o := CopyTodos(Listing(account, "todos"), sid);
    }
  }

  /** CopyClaudeSession: the guards, the ancillary files, and last the jsonl files. */
  method CopyClaudeSession(from: string, to: string, sid: string, source: Tree, toExists: bool, disk: Disk)
    returns (r: CopyResult)
    modifies disk
    ensures Refusal(from, to, sid, source, toExists).Some? ==>
              Some(r) == Refusal(from, to, sid, source, toExists) && disk.Now() == old(disk.Now())
    ensures Refusal(from, to, sid, source, toExists).None? ==>
              r.Ran? && (disk.Now(), r.outcome) == Run(old(disk.Now()), Plan(source.children, sid))
  {
    hide ValidSessionID, ShortName, Run, AncillarySteps, JsonlSteps, Listing;
    if !ValidSessionID(sid) { return InvalidSession; }
    if from == to { return SameAccount; }
    if !ShortName(from) { return InvalidAlias(from); }
    if !ShortName(to) { return InvalidAlias(to); }
    if !source.Dir? { return NoAccount(from); }
    if !toExists { return NoAccount(to); }
    var found := CollectJsonls(Listing(source.children, "projects"), sid);
    if found == [] { return NotFound; }
    RunConcat(disk.Now(), AncillarySteps(source.children, sid), JsonlSteps(found, sid));
    var o := disk.CopyAncillary(source.children, sid);
    if o.Done? {
      o := disk.CopyJsonls(found, sid);
    }
    return Ran(o);
  }

  method CollectJsonls(projects: seq<Child>, sid: string) returns (found: seq<(string, string)>)
    ensures found == Jsonls(projects, sid)
  {
    hide FileAt;
    found := [];
    assert projects[0..] == projects;
    for i := 0 to |projects|
      invariant Jsonls(projects, sid) == found + Jsonls(projects[i..], sid)
    {
      RestStarts(projects, i);
      if projects[i].tree.Dir? {
        var data := FileAt(projects[i].tree.children, sid + ".jsonl");
        if data.Some? {
          found := found + [(projects[i].name, data.value)];
        }
      }
    }
  }

  // ----- Steps of the proofs about the loops -----

  lemma RunOne(s: State, step: Step)
    ensures Run(s, [step]) == Do(s, step)
  {
    assert [step][1..] == [];
    var r := Do(s, step);
    assert Run(r.0, []) == (r.0, Done);
  }

  lemma RestStarts<T>(a: seq<T>, i: nat)
    requires i < |a|
    ensures a[i..] != [] && a[i..][0] == a[i] && a[i..][1..] == a[i + 1..]
  {
  }

  /** One more component of a path is one more step, and a run that stops there stops for the whole path. */
  lemma DirStepsGrow(s: State, rel: Path, i: nat)
    requires i < |rel| && Run(s, DirSteps(rel[..i])).1.Done?
    ensures Run(s, DirSteps(rel[..i + 1])) == Do(Run(s, DirSteps(rel[..i])).0, EnsureDir(rel[..i + 1]))
    ensures !Run(s, DirSteps(rel[..i + 1])).1.Done? ==> Run(s, DirSteps(rel)) == Run(s, DirSteps(rel[..i + 1]))
  {
    hide Do, Run;
    assert rel[..i + 1][..i] == rel[..i];
    RunConcat(s, DirSteps(rel[..i]), [EnsureDir(rel[..i + 1])]);
    RunOne(Run(s, DirSteps(rel[..i])).0, EnsureDir(rel[..i + 1]));
    var tail := DirStepsTail(rel, i + 1);
    RunConcat(s, DirSteps(rel[..i + 1]), tail);
  }

  lemma {:induction false} DirStepsTail(rel: Path, i: nat) returns (tail: seq<Step>)
    requires i <= |rel|
    ensures DirSteps(rel) == DirSteps(rel[..i]) + tail
    decreases |rel|
  {
    if i == |rel| {
      assert rel[..i] == rel;
      tail := [];
    } else {
      var most := rel[..|rel| - 1];
      var t := DirStepsTail(most, i);
      assert most[..i] == rel[..i];
      tail := t + [EnsureDir(rel)];
    }
  }

  lemma RunFour(s: State, a: seq<Step>, b: seq<Step>, c: seq<Step>, d: seq<Step>)
    ensures Run(s, a + b + c + d) ==
            if Run(s, a).1.Done? then RunThree(Run(s, a).0, b, c, d) else Run(s, a)
  {
    hide Run;
    RunConcat(s, a + b + c, d);
    RunConcat(s, a + b, c);
    RunConcat(s, a, b);
  }

  function RunThree(s: State, b: seq<Step>, c: seq<Step>, d: seq<Step>): (State, Outcome) {
    var r := Run(s, b);
    if !r.1.Done? then r
    else
      var t := Run(r.0, c);
      if t.1.Done? then Run(t.0, d) else t
  }

  // ----- What holds after a copy, finished or not -----

  /** If this run has changed a jsonl of the destination, every ancillary file of the source is at the destination
      already, with at least its source size. */
  lemma JsonlIsLast(s: State, account: seq<Child>, sid: string, p: Path, q: Path, data: string)
    requires WellFormedList(account)
    requires IsJsonl(p, sid) && !SameAt(s.entries, Run(s, Plan(account, sid)).0.entries, p)
    requires IsAncillary(q, sid) && Lookup(Dir(account), q) == Some(Leaf(data))
    ensures var e' := Run(s, Plan(account, sid)).0.entries; q in e' && e'[q].File? && |e'[q].data| >= |data|
  {
    hide AncillarySteps, JsonlSteps, Run, IsAncillary, Lookup, WellFormedList;
    AncillaryCovered(account, sid, q, data);
    AncillarySparesJsonls(account, sid, p);
    ChangedAfter(s, AncillarySteps(account, sid), JsonlSteps(Jsonls(Listing(account, "projects"), sid), sid), p);
  }

  lemma AncillarySparesJsonls(account: seq<Child>, sid: string, p: Path)
    requires WellFormedList(account) && IsJsonl(p, sid)
    ensures forall i :: 0 <= i < |AncillarySteps(account, sid)| ==> AncillarySteps(account, sid)[i].path != p
  {
    hide AncillarySteps, Lookup, WellFormedList;
    var steps := AncillarySteps(account, sid);
    forall i | 0 <= i < |steps| ensures steps[i].path != p {
      if steps[i].Copy? {
        AncillaryCovered(account, sid, steps[i].path, steps[i].data);
      } else {
        PlanWithin(account, sid);
        assert Plan(account, sid)[i] == steps[i];
      }
    }
  }

  /** Outside the files and directories of the session nothing changes, whenever the run stops. */
  lemma NothingElseChanges(s: State, account: seq<Child>, sid: string, p: Path)
    requires !IsAncillary(p, sid) && !IsJsonl(p, sid) && !IsFamilyDir(p, sid)
    ensures SameAt(s.entries, Run(s, Plan(account, sid)).0.entries, p)
  {
    hide Plan, Run, IsAncillary, IsJsonl, IsFamilyDir, SameAt;
    PlanWithin(account, sid);
    CrashSafe(s, Plan(account, sid));
  }

  /** Whenever the run stops, a file of the session that the destination had has not shrunk, and what is there is
      either what was there before or a complete file of the source. */
  lemma FamilyIsOldOrCopied(s: State, account: seq<Child>, sid: string, p: Path)
    requires WellFormedList(account)
    ensures var e' := Run(s, Plan(account, sid)).0.entries;
      p in s.entries && s.entries[p].File? ==>
        p in e' && e'[p].File? && |e'[p].data| >= |s.entries[p].data|
    ensures var e' := Run(s, Plan(account, sid)).0.entries;
      p in e' && e'[p].File? && !SameAt(s.entries, e', p) ==>
        (IsAncillary(p, sid) || IsJsonl(p, sid)) && Lookup(Dir(account), p) == Some(Leaf(e'[p].data))
  {
    hide AncillarySteps, JsonlSteps, Run, IsAncillary, IsJsonl, Lookup, WellFormedList;
    var e' := Run(s, Plan(account, sid)).0.entries;
    CrashSafe(s, Plan(account, sid));
    if p in e' && e'[p].File? {
      AncillaryCovered(account, sid, p, e'[p].data);
      JsonlsCovered(account, sid, p, e'[p].data);
    }
  }

  /** After a copy that reports success every file of the session is at the destination with at least its size. */
  lemma FinishedCopyIsComplete(s: State, account: seq<Child>, sid: string, p: Path, data: string)
    requires WellFormedList(account) && Run(s, Plan(account, sid)).1.Done?
    requires (IsAncillary(p, sid) || IsJsonl(p, sid)) && Lookup(Dir(account), p) == Some(Leaf(data))
    ensures var e' := Run(s, Plan(account, sid)).0.entries; p in e' && e'[p].File? && |e'[p].data| >= |data|
  {
    hide AncillarySteps, JsonlSteps, Run, IsAncillary, IsJsonl, Lookup, WellFormedList;
    FinishedRun(s, Plan(account, sid));
    AncillaryCovered(account, sid, p, data);
    JsonlsCovered(account, sid, p, data);
    assert Copy(p, data) in Plan(account, sid);
    assert Settled(Run(s, Plan(account, sid)).0.entries, Copy(p, data));
  }

  // ----- When nothing is copied -----

  lemma StepsOfFound(found: seq<(string, string)>, sid: string)
    requires found != []
    ensures Copy(JsonlPath(found[0].0, sid), found[0].1) in JsonlSteps(found, sid)
  {
    hide DirSteps;
  }

  lemma {:induction false} NothingFoundMeans(account: seq<Child>, sid: string)
    requires WellFormedList(account)
    ensures Jsonls(Listing(account, "projects"), sid) == [] <==>
            forall p, data :: IsJsonl(p, sid) ==> Lookup(Dir(account), p) != Some(Leaf(data))
  {
    hide Jsonls, JsonlSteps, Listing, Lookup, WellFormedList, IsJsonl;
    var found := Jsonls(Listing(account, "projects"), sid);
    if found == [] {
      NoSteps(sid);
      forall p, data ensures IsJsonl(p, sid) ==> Lookup(Dir(account), p) != Some(Leaf(data)) {
        JsonlsCovered(account, sid, p, data);
      }
    } else {
      StepsOfFound(found, sid);
      JsonlsCovered(account, sid, JsonlPath(found[0].0, sid), found[0].1);
    }
  }

  lemma NoSteps(sid: string)
    ensures JsonlSteps([], sid) == []
  {
  }

  /** The guards in plain words: a copy is attempted exactly for a session id of 8 to 64 letters, digits and dashes,
      two different valid aliases, two existing accounts, and a jsonl of the session in the source; the first guard that
      fails is the one reported. */
  lemma RefusalMeans(from: string, to: string, sid: string, source: Tree, toExists: bool)
    requires WellFormed(source)
    ensures Refusal(from, to, sid, source, toExists) == None <==>
            && ValidSessionID(sid) && from != to && ShortName(from) && ShortName(to) && source.Dir? && toExists
            && exists p, data :: IsJsonl(p, sid) && Lookup(source, p) == Some(Leaf(data))
    ensures !ValidSessionID(sid) ==> Refusal(from, to, sid, source, toExists) == Some(InvalidSession)
    ensures ValidSessionID(sid) && from == to ==> Refusal(from, to, sid, source, toExists) == Some(SameAccount)
    ensures ValidSessionID(sid) && from != to && ShortName(from) && ShortName(to) ==>
              && (!source.Dir? ==> Refusal(from, to, sid, source, toExists) == Some(NoAccount(from)))
              && (source.Dir? && !toExists ==> Refusal(from, to, sid, source, toExists) == Some(NoAccount(to)))
              && (source.Dir? && toExists
                  && (forall p, data :: IsJsonl(p, sid) ==> Lookup(source, p) != Some(Leaf(data))) ==>
                    Refusal(from, to, sid, source, toExists) == Some(NotFound))
  {
    hide ValidSessionID, ShortName, Jsonls, Listing, Lookup, IsJsonl, WellFormedList;
    if source.Dir? { NothingFoundMeans(source.children, sid); }
  }
}
