/**
unpackCommand (fakebash/fakebash.go): looks through `exec`, `bash -c` and `sh -c` for the one allowlisted
command that a command line really runs.
*/
module CommandUnpack {
  import opened Wrappers
  import opened ShellSplit
  import opened ShellInvocation

  const ALLOWLIST: set<string> :=
    {"agystatusline", "find-peer", "call-peer", "ask-user", "ask_user", "show-output"}

  function TrimSlashes(p: string): string {
    if p != "" && p[|p| - 1] == '/' then TrimSlashes(p[..|p| - 1]) else p
  }

  function AfterSlash(p: string): string {
    if p == "" then "" else if '/' in p then AfterSlash(p[1..]) else p
  }

  /** filepath.Base */
  function Base(p: string): string {
    if p == "" then "."
    else
      var b := AfterSlash(TrimSlashes(p));
      if b == "" then "/" else b
  }

  predicate IsNoOpCommand(name: string) {
    Base(name) in {"shopt", "true", "false", "colon", ":"}
  }

  predicate IsShell(name: string) {
    Base(name) == "bash" || Base(name) == "sh"
  }

  predicate IsAllowed(name: string) {
    name in ALLOWLIST || Base(name) in ALLOWLIST
  }

  /** The string a shell invocation runs, if it is one that unpackCommand looks into. */
  function InnerCommand(cmd: Words): Option<string>
    requires cmd != []
  {
    match Parse(cmd[1..])
    case Some(inv) => if inv.cmd != "" then Some(inv.cmd) else None
    case None => None
  }

  // ----- The commands a command line unfolds into -----

  datatype Leaf = NoOp | Allowed(cmd: Words) | Blocked

  /** Unfolding ends because every word costs its length and one separator, and splitting makes nothing new. */
  function Leaves(cmd: Words): seq<Leaf>
    decreases Total(cmd), 0
  {
    if cmd == [] then [NoOp]
    else if Base(cmd[0]) == "exec" then
      TotalOfTail(cmd);
      Leaves(cmd[1..])
    else if IsNoOpCommand(cmd[0]) then [NoOp]
    else if IsShell(cmd[0]) then
      if InnerCommand(cmd).Some? then
        InnerIsSmaller(cmd);
        LeavesAll(Split(InnerCommand(cmd).value))
      else [Blocked]
    else if IsAllowed(cmd[0]) then [Allowed(cmd)]
    else [Blocked]
  }

  function LeavesAll(cs: seq<Words>): seq<Leaf>
    decreases TotalAll(cs), |cs| + 1
  {
    if cs == [] then [] else LeavesAll(cs[..|cs| - 1]) + Leaves(cs[|cs| - 1])
  }

  lemma {:induction false} TotalConcat(a: Words, b: Words)
    ensures Total(a + b) == Total(a) + Total(b)
  {
    if b == [] {
      assert a + b == a;
    } else {
      assert (a + b)[..|a + b| - 1] == a + b[..|b| - 1];
      TotalConcat(a, b[..|b| - 1]);
    }
  }

  lemma TotalOfTail(cmd: Words)
    requires cmd != []
    ensures Total(cmd) == |cmd[0]| + 1 + Total(cmd[1..])
  {
    assert cmd == [cmd[0]] + cmd[1..];
    TotalConcat([cmd[0]], cmd[1..]);
    assert [cmd[0]][..0] == [];
  }

  lemma InnerIsSmaller(cmd: Words)
    requires cmd != [] && InnerCommand(cmd).Some?
    ensures TotalAll(Split(InnerCommand(cmd).value)) < Total(cmd)
  {
    hide Total, TotalAll, Split, Parse;
    var inv := Parse(cmd[1..]).value;
    ParseSplitsArgs(cmd[1..]);
    TotalOfTail(cmd);
    TotalConcat(inv.opts + [inv.cmd], inv.rest);
    TotalConcat(inv.opts, [inv.cmd]);
    TotalOfTail([inv.cmd]);
    SplitBound(inv.cmd);
  }

  // ----- What the unfolding is judged by -----

  predicate AnyBlocked(ls: seq<Leaf>) {
    exists i :: 0 <= i < |ls| && ls[i].Blocked?
  }

  /** The allowlisted leaves, in order. */
  function AllowedOf(ls: seq<Leaf>): seq<Words> {
    if ls == [] then []
    else
      var l := ls[|ls| - 1];
      AllowedOf(ls[..|ls| - 1]) + if l.Allowed? then [l.cmd] else []
  }

  predicate Runnable(ls: seq<Leaf>) {
    !AnyBlocked(ls) && |AllowedOf(ls)| <= 1
  }

  function Chosen(ls: seq<Leaf>): Words {
    if |AllowedOf(ls)| == 1 then AllowedOf(ls)[0] else []
  }

  lemma {:induction false} AllowedOfConcat(a: seq<Leaf>, b: seq<Leaf>)
    ensures AllowedOf(a + b) == AllowedOf(a) + AllowedOf(b)
  {
    if b == [] {
      assert a + b == a;
    } else {
      assert (a + b)[..|a + b| - 1] == a + b[..|b| - 1];
      AllowedOfConcat(a, b[..|b| - 1]);
    }
  }

  lemma AnyBlockedConcat(a: seq<Leaf>, b: seq<Leaf>)
    ensures AnyBlocked(a + b) <==> AnyBlocked(a) || AnyBlocked(b)
  {
    if AnyBlocked(a) {
      var i :| 0 <= i < |a| && a[i].Blocked?;
      assert (a + b)[i].Blocked?;
    }
    if AnyBlocked(b) {
      var i :| 0 <= i < |b| && b[i].Blocked?;
      assert (a + b)[|a| + i].Blocked?;
    }
  }

  /** Joining two unfoldings: the result of the loop body of unpackCommand. */
  lemma JoinRunnable(a: seq<Leaf>, b: seq<Leaf>)
    ensures Runnable(a + b) <==> Runnable(a) && Runnable(b) && (AllowedOf(a) == [] || AllowedOf(b) == [])
    ensures Runnable(a + b) ==> Chosen(a + b) == if AllowedOf(b) != [] then Chosen(b) else Chosen(a)
  {
    hide AllowedOf, AnyBlocked;
    AllowedOfConcat(a, b);
    AnyBlockedConcat(a, b);
  }

  lemma LeavesCases(cmd: Words)
    ensures cmd == [] ==> Leaves(cmd) == [NoOp]
    ensures cmd != [] && Base(cmd[0]) == "exec" ==> Leaves(cmd) == Leaves(cmd[1..])
    ensures cmd != [] && Base(cmd[0]) != "exec" && IsNoOpCommand(cmd[0]) ==> Leaves(cmd) == [NoOp]
    ensures cmd != [] && Base(cmd[0]) != "exec" && !IsNoOpCommand(cmd[0]) && IsShell(cmd[0]) ==>
              Leaves(cmd) == if InnerCommand(cmd).Some? then LeavesAll(Split(InnerCommand(cmd).value)) else [Blocked]
    ensures cmd != [] && Base(cmd[0]) != "exec" && !IsNoOpCommand(cmd[0]) && !IsShell(cmd[0]) ==>
              Leaves(cmd) == if IsAllowed(cmd[0]) then [Allowed(cmd)] else [Blocked]
  {
    hide Base, IsNoOpCommand, IsShell, IsAllowed, InnerCommand, LeavesAll, Split;
  }

  /** The verdict on an unfolding: ok if and only if nothing is blocked and at most one leaf is allowlisted; the
      result is then that leaf, and empty exactly when all leaves are no-ops. */
  ghost predicate Verdict(ls: seq<Leaf>, result: Words, ok: bool) {
    && (ok <==> Runnable(ls))
    && (ok ==> result == Chosen(ls) && (result == [] <==> AllowedOf(ls) == []))
  }

  lemma OneLeafVerdicts(cmd: Words)
    ensures Verdict([NoOp], [], true) && Verdict([Blocked], [], false)
    ensures cmd != [] ==> Verdict([Allowed(cmd)], cmd, true)
  {
    var noop, allowed := [NoOp], [Allowed(cmd)];
    assert noop[..0] == [] && allowed[..0] == [];
    assert AllowedOf(noop) == [] && AllowedOf(allowed) == [cmd];
    assert [Blocked][0].Blocked?;
  }

  /** One round of the loop over the inner commands. */
  lemma VerdictNext(a: seq<Leaf>, finalCmd: Words, b: seq<Leaf>, unpacked: Words, ok: bool)
    requires Verdict(a, finalCmd, true) && Verdict(b, unpacked, ok)
    ensures !ok || (|unpacked| > 0 && |finalCmd| > 0) ==> !Runnable(a + b)
    ensures ok && !(|unpacked| > 0 && |finalCmd| > 0) ==>
              Verdict(a + b, if |unpacked| > 0 then unpacked else finalCmd, true)
  {
    hide AllowedOf, AnyBlocked, Runnable, Chosen;
    JoinRunnable(a, b);
    AllowedOfConcat(a, b);
    assert |AllowedOf(a + b)| == |AllowedOf(a)| + |AllowedOf(b)|;
  }

  /** The leaves of the first i commands come first. */
  lemma LeavesOfPrefix(cs: seq<Words>, i: nat) returns (rest: seq<Leaf>)
    requires i <= |cs|
    ensures LeavesAll(cs) == LeavesAll(cs[..i]) + rest
    decreases |cs| - i
  {
    hide Leaves;
    if i == |cs| {
      assert cs[..i] == cs;
      rest := [];
    } else {
      var more := LeavesOfPrefix(cs, i + 1);
      assert cs[..i + 1][..i] == cs[..i];
      rest := Leaves(cs[i]) + more;
    }
  }

  lemma LeavesNext(cs: seq<Words>, i: nat)
    requires i < |cs|
    ensures LeavesAll(cs[..i + 1]) == LeavesAll(cs[..i]) + Leaves(cs[i])
  {
    hide Leaves;
    assert cs[..i + 1][..i] == cs[..i];
  }

  lemma NotRunnable(cs: seq<Words>, i: nat)
    requires i < |cs| && !Runnable(LeavesAll(cs[..i]) + Leaves(cs[i]))
    ensures Verdict(LeavesAll(cs), [], false)
  {
    hide Leaves, LeavesAll, Runnable;
    var rest := LeavesOfPrefix(cs, i + 1);
    LeavesNext(cs, i);
    JoinRunnable(LeavesAll(cs[..i + 1]), rest);
  }

  lemma {:induction false} PartOfTotal(cs: seq<Words>, i: nat)
    requires i < |cs|
    ensures Total(cs[i]) <= TotalAll(cs)
  {
    if i < |cs| - 1 { PartOfTotal(cs[..|cs| - 1], i); }
  }

  lemma NothingUnpacked()
    ensures Verdict(LeavesAll([]), [], true)
  {
  }

  lemma InnerByParse(cmd: Words)
    requires cmd != []
    ensures InnerCommand(cmd) ==
            if Parse(cmd[1..]).Some? && Parse(cmd[1..]).value.cmd != "" then Some(Parse(cmd[1..]).value.cmd) else None
  {
    hide Parse;
  }

  lemma Names(first: string)
    ensures IsShell(first) <==> Base(first) == "bash" || Base(first) == "sh"
    ensures IsAllowed(first) <==> first in ALLOWLIST || Base(first) in ALLOWLIST
  {
    hide Base;
  }

  // ----- unpackCommand -----

  method UnpackCommand(cmd: Words) returns (result: Words, ok: bool)
    ensures Verdict(Leaves(cmd), result, ok)
    decreases Total(cmd), 0
  {
    hide *;
    LeavesCases(cmd);
    OneLeafVerdicts(cmd);
    if |cmd| == 0 { return [], true; }
    var first := cmd[0];
    var base := Base(first);
    Names(first);
    if base == "exec" {
      TotalOfTail(cmd);
      result, ok := UnpackCommand(cmd[1..]);
      return;
    }
    if IsNoOpCommand(first) { return [], true; }
    if base == "bash" || base == "sh" {
      var inv := ParseShellInvocation(cmd[1..]);
      InnerByParse(cmd);
      if inv.Some? {
        if inv.value.cmd != "" {
          InnerIsSmaller(cmd);
          result, ok := UnpackAll(inv.value.cmd);
          return;
        }
      }
      return [], false;
    }
    if first in ALLOWLIST { return cmd, true; }
    if base in ALLOWLIST { return cmd, true; }
    return [], false;
  }

  /** The loop over the commands of a -c string. */
  method UnpackAll(innerCmdStr: string) returns (finalCmd: Words, ok: bool)
    ensures Verdict(LeavesAll(Split(innerCmdStr)), finalCmd, ok)
    decreases TotalAll(Split(innerCmdStr)), 1
  {
    hide *;
    var innerCmds := SplitCommandString(innerCmdStr);
    finalCmd := [];
    NothingUnpacked();
    assert innerCmds[..0] == [];
    var i := 0;
    while i < |innerCmds|
      invariant i <= |innerCmds| && Verdict(LeavesAll(innerCmds[..i]), finalCmd, true)
    {
      PartOfTotal(innerCmds, i);
      var unpacked, ok' := UnpackCommand(innerCmds[i]);
      VerdictNext(LeavesAll(innerCmds[..i]), finalCmd, Leaves(innerCmds[i]), unpacked, ok');
      LeavesNext(innerCmds, i);
      if !ok' {
        NotRunnable(innerCmds, i);
        return [], false;
      }
      if |unpacked| > 0 {
        if |finalCmd| > 0 {
          NotRunnable(innerCmds, i);
          return [], false;
        }
        finalCmd := unpacked;
      }
      i := i + 1;
    }
    assert innerCmds[..i] == innerCmds;
    ok := true;
  }

  // ----- What a command line comes to -----

  lemma {:induction false} AfterLastSlash(dir: string, name: string)
    requires name != "" && '/' !in name
    ensures AfterSlash(dir + "/" + name) == name
  {
    if dir == "" {
      assert (dir + "/" + name)[1..] == name;
    } else {
      AfterLastSlash(dir[1..], name);
      assert (dir + "/" + name)[1..] == dir[1..] + "/" + name;
    }
    assert '/' in dir + "/" + name by { assert (dir + "/" + name)[|dir|] == '/'; }
  }

  /** The name of a program, with or without the directory it is in. */
  lemma BaseOf(dir: string, name: string)
    requires name != "" && '/' !in name
    ensures Base(name) == name && Base(dir + "/" + name) == name
  {
    hide AfterSlash;
    AfterLastSlash(dir, name);
    NoSlash(name);
    assert TrimSlashes(name) == name;
    assert TrimSlashes(dir + "/" + name) == dir + "/" + name;
  }

  lemma NoSlash(name: string)
    requires name != "" && '/' !in name
    ensures AfterSlash(name) == name
  {
  }

  /** The commands that do nothing, by name. */
  predicate DoesNothing(name: string) {
    name == "shopt" || name == "true" || name == "false" || name == "colon" || name == ":"
  }

  /** The commands that may run outside the sandbox, by name. */
  predicate MayRun(name: string) {
    || name == "agystatusline" || name == "find-peer" || name == "call-peer" || name == "ask-user" || name == "ask_user"
    || name == "show-output"
  }

  /** What a single command is, by its first word. */
  lemma CommandByName(ws: Words)
    requires ws != [] && ws[0] != "" && '/' !in ws[0]
    ensures DoesNothing(ws[0]) ==> Leaves(ws) == [NoOp]
    ensures MayRun(ws[0]) ==> Leaves(ws) == [Allowed(ws)]
    ensures !DoesNothing(ws[0]) && !MayRun(ws[0]) && ws[0] != "exec" && ws[0] != "bash" && ws[0] != "sh" ==>
              Leaves(ws) == [Blocked]
  {
    hide Base, InnerCommand;
    BaseOf("", ws[0]);
  }

  /** Named by a word without a slash. */
  predicate Named(ws: Words) {
    ws != [] && ws[0] != "" && '/' !in ws[0]
  }

  /** A command that does nothing. */
  predicate Idle(ws: Words) {
    Named(ws) && DoesNothing(ws[0])
  }

  predicate AllIdle(cs: seq<Words>) {
    forall i :: 0 <= i < |cs| ==> Idle(cs[i])
  }

  /** Command k may run and the others do nothing. */
  predicate OnlyRuns(cs: seq<Words>, k: nat) {
    k < |cs| && Named(cs[k]) && MayRun(cs[k][0]) && AllIdle(cs[..k]) && AllIdle(cs[k + 1..])
  }

  lemma LeavesAllConcat(cs: seq<Words>, ws: Words)
    ensures LeavesAll(cs + [ws]) == LeavesAll(cs) + Leaves(ws)
  {
    hide Leaves;
    assert (cs + [ws])[..|cs|] == cs;
  }

  lemma IdleLeaves(ws: Words)
    requires Idle(ws)
    ensures Leaves(ws) == [NoOp]
  {
    hide Leaves, DoesNothing, MayRun;
    CommandByName(ws);
  }

  lemma {:induction false} IdleBehind(cs: seq<Words>, more: seq<Words>)
    requires AllIdle(more)
    ensures AllowedOf(LeavesAll(cs + more)) == AllowedOf(LeavesAll(cs))
    ensures AnyBlocked(LeavesAll(cs + more)) <==> AnyBlocked(LeavesAll(cs))
    decreases |more|
  {
    hide Leaves, LeavesAll, Idle, AllowedOf, AnyBlocked;
    if more == [] {
      assert cs + more == cs;
    } else {
      var n := |more| - 1;
      assert cs + more == cs + more[..n] + [more[n]];
      IdleBehind(cs, more[..n]);
      LeavesAllConcat(cs + more[..n], more[n]);
      IdleLeaves(more[n]);
      AllowedOfConcat(LeavesAll(cs + more[..n]), [NoOp]);
      AnyBlockedConcat(LeavesAll(cs + more[..n]), [NoOp]);
      OneLeaf(more[n]);
      assert AllowedOf(LeavesAll(cs + more[..n])) + [] == AllowedOf(LeavesAll(cs + more[..n]));
    }
  }

  lemma NoLeaves()
    ensures AllowedOf(LeavesAll([])) == [] && !AnyBlocked(LeavesAll([]))
  {
  }

  lemma IdleOnly(cs: seq<Words>)
    requires AllIdle(cs)
    ensures AllowedOf(LeavesAll(cs)) == [] && !AnyBlocked(LeavesAll(cs))
  {
    hide *;
    NoLeaves();
    IdleBehind([], cs);
    assert [] + cs == cs;
  }

  lemma RunsOnly(cs: seq<Words>, k: nat)
    requires OnlyRuns(cs, k)
    ensures AllowedOf(LeavesAll(cs)) == [cs[k]] && !AnyBlocked(LeavesAll(cs))
  {
    hide *;
    OnlyRunsParts(cs, k);
    IdleOnly(cs[..k]);
    LeavesAllConcat(cs[..k], cs[k]);
    AllowedOfConcat(LeavesAll(cs[..k]), [Allowed(cs[k])]);
    AnyBlockedConcat(LeavesAll(cs[..k]), [Allowed(cs[k])]);
    OneLeaf(cs[k]);
    IdleBehind(cs[..k] + [cs[k]], cs[k + 1..]);
    assert cs[..k] + [cs[k]] + cs[k + 1..] == cs;
    assert [] + [cs[k]] == [cs[k]];
  }

  lemma OnlyRunsParts(cs: seq<Words>, k: nat)
    requires OnlyRuns(cs, k)
    ensures k < |cs| && AllIdle(cs[..k]) && AllIdle(cs[k + 1..]) && Leaves(cs[k]) == [Allowed(cs[k])]
  {
    hide Leaves, AllIdle, DoesNothing, MayRun;
    CommandByName(cs[k]);
  }

  lemma OneLeaf(ws: Words)
    ensures AllowedOf([NoOp]) == [] && AllowedOf([Allowed(ws)]) == [ws]
    ensures !AnyBlocked([NoOp]) && !AnyBlocked([Allowed(ws)])
  {
  }

  /** `bash -c` with a text that splits into one command that may run, among commands that do nothing, comes to that
      command; with only commands that do nothing it comes to nothing; both are all right. */
  lemma BashRunsTheOne(text: string, k: nat, result: Words, ok: bool)
    requires text != "" && text != "--" && !IsShellOptionArg(text)
    requires Verdict(Leaves(["bash", "-c", text]), result, ok)
    ensures AllIdle(Split(text)) ==> ok && result == []
    ensures OnlyRuns(Split(text), k) ==> ok && result == Split(text)[k]
  {
    hide Split, Leaves, LeavesAll, Parse, AllIdle, OnlyRuns, AllowedOf, AnyBlocked;
    BashLeaves(text);
    if AllIdle(Split(text)) { IdleOnly(Split(text)); }
    if OnlyRuns(Split(text), k) { RunsOnly(Split(text), k); }
  }

  lemma BashLeaves(text: string)
    requires text != "" && text != "--" && !IsShellOptionArg(text)
    ensures Leaves(["bash", "-c", text]) == LeavesAll(Split(text))
  {
    hide Split, LeavesAll, Base, Parse;
    BaseOf("", "bash");
    BashInner(text);
  }

  lemma BashInner(text: string)
    requires text != "" && text != "--" && !IsShellOptionArg(text)
    ensures InnerCommand(["bash", "-c", text]) == Some(text)
  {
    hide Parse, ShellOptionValueCount;
    var args := ["-c", text];
    assert ["bash", "-c", text][1..] == args;
    OptionForms("c");
    assert multiset("c")['o'] == 0 && multiset("c")['O'] == 0;
    assert ["-c"][1..] == [];
    assert "-" + "c" == "-c";
    assert OptionList([]) && OptionList(["-c"]) && AnySelects(["-c"]);
    assert ["-c"] + [text] + [] == args;
    ParseIsGrammar(args, Invocation(["-c"], text, []));
  }
}
