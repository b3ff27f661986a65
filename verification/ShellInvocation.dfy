/**
parseShellInvocation and the way RunCommand rebuilds an argument vector (fakebash/fakebash.go).
*/
module ShellInvocation {
  import opened Wrappers
  import opened GoText

  type Args = seq<string>

  predicate IsShellOptionArg(arg: string) {
    |arg| >= 2 && (arg[0] == '-' || arg[0] == '+') && arg != "--"
  }

  function CountOf(s: string, c: char): nat {
    if s == "" then 0 else (if s[0] == c then 1 else 0) + CountOf(s[1..], c)
  }

  /** Every o and O in a short cluster takes one value. */
  function ShellOptionValueCount(arg: string): nat {
    if HasPrefix(arg, "--") then 0 else CountOf(arg, 'o') + CountOf(arg, 'O')
  }

  /** Like -c, +c selects command mode. */
  predicate SelectsCommand(arg: string) {
    !HasPrefix(arg, "--") && 'c' in arg
  }

  /** opts is everything before the command, cmd the command string, rest the positional arguments. */
  datatype Invocation = Invocation(opts: Args, cmd: string, rest: Args)

  /** Parses `tail` behind the options `before`. */
  function ParseTail(before: Args, tail: Args, seenC: bool): Option<Invocation>
    decreases |tail|
  {
    if tail == [] then None
    else
      var arg := tail[0];
      if arg == "--" then
        if !seenC || |tail| == 1 then None else Some(Invocation(before + ["--"], tail[1], tail[2..]))
      else if !IsShellOptionArg(arg) then
        if !seenC then None else Some(Invocation(before, arg, tail[1..]))
      else
        var n := ShellOptionValueCount(arg);
        if n >= |tail| then None
        else ParseTail(before + tail[..n + 1], tail[n + 1..], seenC || SelectsCommand(arg))
  }

  function Parse(args: Args): Option<Invocation> {
    ParseTail([], args, false)
  }

  method ParseShellInvocation(args: Args) returns (r: Option<Invocation>)
    ensures r == Parse(args)
  {
    hide IsShellOptionArg, SelectsCommand, ShellOptionValueCount;
    var seenC := false;
    var i := 0;
    assert args[..0] == [] && args[0..] == args;
    while i < |args|
      invariant i <= |args|
      invariant ParseTail(args[..i], args[i..], seenC) == Parse(args)
    {
      var arg := args[i];
      if arg == "--" {
        if !seenC || i + 1 >= |args| { return None; }
        assert args[..i] + ["--"] == args[..i + 1];
        return Some(Invocation(args[..i + 1], args[i + 1], args[i + 2..]));
      }
      if !IsShellOptionArg(arg) {
        if !seenC { return None; }
        return Some(Invocation(args[..i], arg, args[i + 1..]));
      }
      ghost var was := seenC;
      if SelectsCommand(arg) {
        seenC := true;
      }
      var n := ShellOptionValueCount(arg);
      ParseOption(args, i, was);
      if n > 0 {
        i := i + n;
        if i >= |args| { return None; }
      }
      i := i + 1;
    }
    r := None;
  }

  function AfterOption(args: Args, i: nat, seenC: bool): Option<Invocation>
    requires i < |args|
  {
    var n := ShellOptionValueCount(args[i]);
    if i + n >= |args| then None
    else ParseTail(args[..i + n + 1], args[i + n + 1..], seenC || SelectsCommand(args[i]))
  }

  lemma ParseOption(args: Args, i: nat, seenC: bool)
    requires i < |args| && IsShellOptionArg(args[i])
    ensures ParseTail(args[..i], args[i..], seenC) == AfterOption(args, i, seenC)
  {
    var n := ShellOptionValueCount(args[i]);
    if i + n < |args| {
      assert args[..i] + args[i..][..n + 1] == args[..i + n + 1];
      assert args[i..][n + 1..] == args[i + n + 1..];
    }
  }

  // ----- The grammar -----

  /** A list of options, each followed by exactly the values it takes. */
  predicate OptionList(opts: Args)
    decreases |opts|
  {
    opts == []
    || (IsShellOptionArg(opts[0])
        && ShellOptionValueCount(opts[0]) < |opts|
        && OptionList(opts[ShellOptionValueCount(opts[0]) + 1..]))
  }

  /** Some option of the list, not some value, selects command mode. */
  predicate AnySelects(opts: Args)
    requires OptionList(opts)
    decreases |opts|
  {
    opts != [] && (SelectsCommand(opts[0]) || AnySelects(opts[ShellOptionValueCount(opts[0]) + 1..]))
  }

  /** `options command rest`, or `options -- command rest`. */
  ghost predicate Sentence(args: Args, inv: Invocation) {
    && args == inv.opts + [inv.cmd] + inv.rest
    && ((OptionList(inv.opts) && AnySelects(inv.opts) && !IsShellOptionArg(inv.cmd) && inv.cmd != "--")
        || exists items :: OptionList(items) && AnySelects(items) && inv.opts == items + ["--"])
  }

  /** Options in front are consumed as a whole. */
  lemma {:induction false} ParseItems(before: Args, items: Args, tail: Args, seenC: bool)
    requires OptionList(items) && tail != []
    ensures ParseTail(before, items + tail, seenC) == ParseTail(before + items, tail, seenC || AnySelects(items))
    decreases |items|
  {
    if items == [] {
      assert items + tail == tail && before + items == before;
    } else {
      hide IsShellOptionArg, SelectsCommand, ShellOptionValueCount;
      var n := ShellOptionValueCount(items[0]);
      var all := items + tail;
      assert all[0] == items[0] && all[..n + 1] == items[..n + 1] && all[n + 1..] == items[n + 1..] + tail;
      NotDashes(items[0]);
      ParseItems(before + items[..n + 1], items[n + 1..], tail, seenC || SelectsCommand(items[0]));
      assert before + items[..n + 1] + items[n + 1..] == before + items;
    }
  }

  lemma NotDashes(arg: string)
    requires IsShellOptionArg(arg)
    ensures arg != "--"
  {
  }

  /** What a successful parse has consumed. */
  lemma {:induction false} ParseSound(before: Args, tail: Args, seenC: bool) returns (items: Args)
    requires ParseTail(before, tail, seenC).Some?
    ensures OptionList(items) && (seenC || AnySelects(items))
    ensures var inv := ParseTail(before, tail, seenC).value;
            || (inv.opts == before + items && tail == items + [inv.cmd] + inv.rest
                && !IsShellOptionArg(inv.cmd) && inv.cmd != "--")
            || (inv.opts == before + items + ["--"] && tail == items + ["--", inv.cmd] + inv.rest)
    decreases |tail|
  {
    hide IsShellOptionArg, SelectsCommand, CountOf;
    var arg := tail[0];
    if arg == "--" {
      items := [];
      assert before + [] == before;
      assert tail == [] + ["--", tail[1]] + tail[2..];
    } else if !IsShellOptionArg(arg) {
      items := [];
      assert before + [] == before;
      assert tail == [] + [arg] + tail[1..];
    } else {
      var n := ShellOptionValueCount(arg);
      var more := ParseSound(before + tail[..n + 1], tail[n + 1..], seenC || SelectsCommand(arg));
      items := tail[..n + 1] + more;
      ItemInFront(tail[..n + 1], more);
      SoundStep(before, tail, n, more, ParseTail(before, tail, seenC).value);
    }
  }

  lemma ItemInFront(item: Args, more: Args)
    requires item != [] && IsShellOptionArg(item[0]) && |item| == ShellOptionValueCount(item[0]) + 1
    requires OptionList(more)
    ensures OptionList(item + more)
    ensures AnySelects(item + more) <==> SelectsCommand(item[0]) || AnySelects(more)
  {
    hide IsShellOptionArg, SelectsCommand, CountOf;
    assert (item + more)[|item|..] == more;
  }

  lemma SoundStep(before: Args, tail: Args, n: nat, more: Args, inv: Invocation)
    requires n < |tail|
    ensures before + tail[..n + 1] + more == before + (tail[..n + 1] + more)
    ensures tail[n + 1..] == more + [inv.cmd] + inv.rest ==> tail == tail[..n + 1] + more + [inv.cmd] + inv.rest
    ensures tail[n + 1..] == more + ["--", inv.cmd] + inv.rest ==>
              tail == tail[..n + 1] + more + ["--", inv.cmd] + inv.rest
  {
    assert tail == tail[..n + 1] + tail[n + 1..];
  }

  /** parseShellInvocation accepts exactly the sentences of the grammar, and splits them where it says. */
  lemma ParseIsGrammar(args: Args, inv: Invocation)
    ensures Parse(args) == Some(inv) <==> Sentence(args, inv)
  {
    hide IsShellOptionArg, SelectsCommand, CountOf, OptionList, AnySelects, ParseTail;
    if Parse(args) == Some(inv) {
      var items := ParseSound([], args, false);
      assert [] + items == items;
      if inv.opts != items {
        assert items + ["--", inv.cmd] + inv.rest == items + ["--"] + [inv.cmd] + inv.rest;
      }
    }
    if Sentence(args, inv) {
      if OptionList(inv.opts) && AnySelects(inv.opts) && !IsShellOptionArg(inv.cmd) && inv.cmd != "--" {
        ParsePlain(args, inv);
      } else {
        var items :| OptionList(items) && AnySelects(items) && inv.opts == items + ["--"];
        ParseDashes(args, items, inv);
      }
    }
  }

  lemma ParsePlain(args: Args, inv: Invocation)
    requires args == inv.opts + [inv.cmd] + inv.rest && OptionList(inv.opts) && AnySelects(inv.opts)
    requires !IsShellOptionArg(inv.cmd) && inv.cmd != "--"
    ensures Parse(args) == Some(inv)
  {
    hide IsShellOptionArg, OptionList, AnySelects;
    var tail := [inv.cmd] + inv.rest;
    assert args == inv.opts + tail;
    ParseItems([], inv.opts, tail, false);
    assert [] + inv.opts == inv.opts && tail[1..] == inv.rest;
  }

  lemma ParseDashes(args: Args, items: Args, inv: Invocation)
    requires args == inv.opts + [inv.cmd] + inv.rest && inv.opts == items + ["--"]
    requires OptionList(items) && AnySelects(items)
    ensures Parse(args) == Some(inv)
  {
    hide IsShellOptionArg, OptionList, AnySelects;
    var tail := ["--"] + [inv.cmd] + inv.rest;
    assert args == items + tail;
    ParseItems([], items, tail, false);
    assert [] + items == items && tail[1] == inv.cmd && tail[2..] == inv.rest;
  }

  // ----- RunCommand -----

  /** strings.Join(args, " ") */
  function JoinArgs(args: Args): string {
    if args == [] then "" else if |args| == 1 then args[0] else args[0] + " " + JoinArgs(args[1..])
  }

  datatype Plan = Nothing | Run(argv: Args)

  /** What the daemon executes; an empty command string is answered without running anything. */
  function PlanRun(args: Args): Plan {
    if args == [] then Nothing
    else if |args[0]| >= 2 && (args[0][0] == '-' || args[0][0] == '+') then
      match Parse(args)
      case Some(inv) => if inv.cmd == "" then Nothing else Run(["bash"] + inv.opts + [inv.cmd] + inv.rest)
      case None => if JoinArgs(args) == "" then Nothing else Run(["bash"] + args)
    else if JoinArgs(args) == "" then Nothing
    else Run(args)
  }

  /** Recognized or not, bash is given the very arguments that were sent; only an empty -c string is not run. */
  lemma BashGetsArgsVerbatim(args: Args)
    requires args != [] && |args[0]| >= 2 && (args[0][0] == '-' || args[0][0] == '+')
    ensures PlanRun(args) == if Parse(args).Some? && Parse(args).value.cmd == "" then Nothing else Run(["bash"] + args)
  {
    hide Sentence;
    if Parse(args).Some? {
      ParseSplitsArgs(args);
      var inv := Parse(args).value;
      assert ["bash"] + inv.opts + [inv.cmd] + inv.rest == ["bash"] + (inv.opts + [inv.cmd] + inv.rest);
    }
  }

  lemma ParseSplitsArgs(args: Args)
    requires Parse(args).Some?
    ensures var inv := Parse(args).value; args == inv.opts + [inv.cmd] + inv.rest
  {
    ParseIsGrammar(args, Parse(args).value);
  }

  lemma {:induction false} CountIs(s: string, c: char)
    ensures CountOf(s, c) == multiset(s)[c]
  {
    if s != "" {
      CountIs(s[1..], c);
      assert s == [s[0]] + s[1..];
    }
  }

  /** What the words of the grammar are: an option starts with - or + and is more than that, -- is none; a cluster takes
      one value for each o and each O in it, a long option takes none; and a cluster with a c selects command mode. */
  lemma OptionForms(cluster: string)
    requires cluster != ""
    ensures IsShellOptionArg("-" + cluster) <==> cluster != "-"
    ensures IsShellOptionArg("+" + cluster)
    ensures !IsShellOptionArg(cluster) || cluster[0] == '-' || cluster[0] == '+'
    ensures !IsShellOptionArg("") && !IsShellOptionArg("-") && !IsShellOptionArg("+")
    ensures cluster[0] != '-' ==>
              ShellOptionValueCount("-" + cluster) == multiset(cluster)['o'] + multiset(cluster)['O']
    ensures ShellOptionValueCount("+" + cluster) == multiset(cluster)['o'] + multiset(cluster)['O']
    ensures cluster[0] == '-' ==> ShellOptionValueCount("-" + cluster) == 0 && !SelectsCommand("-" + cluster)
    ensures cluster[0] != '-' ==> (SelectsCommand("-" + cluster) <==> 'c' in cluster)
    ensures SelectsCommand("+" + cluster) <==> 'c' in cluster
  {
    hide CountOf;
    var minus, plus := "-" + cluster, "+" + cluster;
    CountIs(minus, 'o');
    CountIs(minus, 'O');
    CountIs(plus, 'o');
    CountIs(plus, 'O');
    assert minus[..2] == ['-', cluster[0]] && plus[..2] == ['+', cluster[0]];
  }
}
