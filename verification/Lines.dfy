/** Splitting text at newlines and joining it again (strings.Split and strings.Join with "\n"). */
module Lines {
  import opened GoText

  function Split(s: string): (lines: seq<string>)
    ensures lines != []
    ensures forall i :: 0 <= i < |lines| ==> '\n' !in lines[i]
    decreases |s|
  {
    var i := IndexByte(s, '\n');
    if i == -1 then [s] else [s[..i]] + Split(s[i + 1..])
  }

  function Join(lines: seq<string>): string {
    if lines == [] then ""
    else if |lines| == 1 then lines[0]
    else lines[0] + "\n" + Join(lines[1..])
  }

  /** Split, one line at a time. */
  lemma SplitStep(s: string)
    ensures var i := IndexByte(s, '\n'); Split(s) == if i == -1 then [s] else [s[..i]] + Split(s[i + 1..])
  {
    hide IndexByte;
  }

  lemma CutAt(s: string, i: nat)
    requires i < |s| && s[i] == '\n'
    ensures s == s[..i] + "\n" + s[i + 1..]
  {
  }

  lemma JoinOne(line: string)
    ensures Join([line]) == line
  {
  }

  lemma JoinCons(line: string, rest: seq<string>)
    requires rest != []
    ensures Join([line] + rest) == line + "\n" + Join(rest)
  {
    assert ([line] + rest)[1..] == rest;
  }

  lemma {:induction false} JoinSplit(s: string)
    ensures Join(Split(s)) == s
    decreases |s|
  {
    hide *;
    var i := IndexByte(s, '\n');
    SplitStep(s);
    if i == -1 {
      JoinOne(s);
    } else {
      JoinSplit(s[i + 1..]);
      JoinCons(s[..i], Split(s[i + 1..]));
      CutAt(s, i);
    }
  }

  /** A text that starts with a whole line. */
  lemma SplitCons(line: string, rest: string)
    requires '\n' !in line
    ensures Split(line + "\n" + rest) == [line] + Split(rest)
  {
    hide *;
    var s, tail := line + "\n" + rest, "\n" + rest;
    assert s == line + tail && tail[0] == '\n';
    IndexByteConcat(line, tail, '\n');
    IndexByteIs(tail, '\n', 0);
    SplitStep(s);
    assert s[..|line|] == line && s[|line| + 1..] == rest;
  }

  lemma {:induction false} SplitJoin(lines: seq<string>)
    requires lines != [] && forall i :: 0 <= i < |lines| ==> '\n' !in lines[i]
    ensures Split(Join(lines)) == lines
  {
    hide *;
    if |lines| == 1 {
      JoinOne(lines[0]);
      SplitStep(lines[0]);
      assert lines == [lines[0]];
    } else {
      SplitJoin(lines[1..]);
      SplitCons(lines[0], Join(lines[1..]));
      JoinCons(lines[0], lines[1..]);
      assert lines == [lines[0]] + lines[1..];
    }
  }

  lemma {:induction false} JoinConcat(a: seq<string>, b: seq<string>)
    requires a != [] && b != []
    ensures Join(a + b) == Join(a) + "\n" + Join(b)
  {
    if |a| == 1 {
      assert (a + b)[1..] == b;
    } else {
      assert (a + b)[1..] == a[1..] + b;
      JoinConcat(a[1..], b);
      assert a[0] + "\n" + (Join(a[1..]) + "\n" + Join(b)) == a[0] + "\n" + Join(a[1..]) + "\n" + Join(b);
    }
  }

  predicate NoNewlines(lines: seq<string>) {
    forall i :: 0 <= i < |lines| ==> '\n' !in lines[i]
  }
}
