/**
The agent contract file (agentwrapper/common/prompt.go): metadata lines between two `---` fences, then the prompt body.
A char is one rune.
*/
module PromptContract {
  import opened Wrappers
  import opened GoText
  import opened Lines
  import opened Trimming
  import opened Quoting

  datatype Contract = Contract(agentID: string, agentName: string, team: string, body: string)

  const FENCE := "---"

  predicate IsEmpty(c: Contract) {
    c.agentID == "" && c.agentName == "" && c.team == "" && TrimSpace(c.body) == ""
  }

  // ----- Parsing -----

  predicate IsBlank(c: char) {
    c == '\r' || c == '\t' || c == ' '
  }

  predicate IsBlankOrNewline(c: char) {
    IsBlank(c) || c == '\n'
  }

  /** A `key: value` metadata line; blank lines, comments and lines without a key are skipped. */
  function SplitMetaLine(raw: string): Option<(string, string)> {
    var line := TrimSpace(raw);
    if line == "" || line[0] == '#' then None
    else
      var i := IndexByte(line, ':');
      if i <= 0 then None
      else
        var key := TrimSpace(line[..i]);
        if key == "" then None else Some((key, Trim(IsQuote, TrimSpace(line[i + 1..]))))
  }

  /** Unknown keys are ignored, and the last line for a key wins. */
  function SetField(c: Contract, meta: Option<(string, string)>): Contract {
    match meta
    case None => c
    case Some((key, value)) =>
      if key == "agent_id" then c.(agentID := value)
      else if key == "agent_name" then c.(agentName := value)
      else if key == "team" then c.(team := value)
      else c
  }

  function Fill(c: Contract, lines: seq<string>): Contract {
    if lines == [] then c else SetField(Fill(c, lines[..|lines| - 1]), SplitMetaLine(lines[|lines| - 1]))
  }

  predicate Closes(line: string) {
    TrimRight(IsBlank, line) == FENCE
  }

  /** The first closing fence from line i on. */
  function ClosingFence(lines: seq<string>, i: nat): (r: Option<nat>)
    ensures r.Some? ==> i <= r.value < |lines| && Closes(lines[r.value])
    decreases |lines| - i
  {
    if i >= |lines| then None else if Closes(lines[i]) then Some(i) else ClosingFence(lines, i + 1)
  }

  function BodyOnly(content: string): Contract {
    Contract("", "", "", TrimSpace(content))
  }

  predicate OpensFence(rest: string) {
    HasPrefix(rest, "---\n") || HasPrefix(rest, "---\r\n")
  }

  function Frontmatter(content: string): Contract {
    var rest := TrimLeft(IsBlankOrNewline, content);
    if !OpensFence(rest) then BodyOnly(content)
    else
      var lines := Split(rest);
      match ClosingFence(lines, 1)
      case None => BodyOnly(content)
      case Some(close) => Fill(Contract("", "", "", TrimSpace(Join(lines[close + 1..]))), lines[1..close])
  }

  function Parse(content: string): Option<Contract> {
    var c := Frontmatter(content);
    if IsEmpty(c) then None else Some(c)
  }

  method ParseFrontmatter(content: string) returns (c: Contract)
    ensures c == Frontmatter(content)
  {
    hide Closes, SetField, SplitMetaLine, Split, Trim, TrimLeft, OpensFence;
    var rest := TrimLeft(IsBlankOrNewline, content);
    if !OpensFence(rest) { return BodyOnly(content); }
    var lines := Split(rest);
    var close := 1;
    while close < |lines| && !Closes(lines[close])
      invariant 1 <= close <= |lines|
      invariant ClosingFence(lines, 1) == ClosingFence(lines, close)
    {
      close := close + 1;
    }
    if close == |lines| { return BodyOnly(content); }
    var meta := lines[1..close];
    c := Contract("", "", "", TrimSpace(Join(lines[close + 1..])));
    ghost var start := c;
    for i := 0 to |meta|
      invariant c == Fill(start, meta[..i])
    {
      assert meta[..i + 1][..i] == meta[..i];
      c := SetField(c, SplitMetaLine(meta[i]));
    }
    assert meta[..|meta|] == meta;
  }

  // ----- Rendering -----

  predicate IsSpecial(c: char) {
    || c == ':' || c == '#' || c == '{' || c == '}' || c == '[' || c == ']' || c == '&' || c == '*' || c == '!'
    || c == '|' || c == '>' || c == '%' || c == '@' || c == '`' || c == ',' || c == '"' || c == '\'' || c == ' '
    || c == '\t'
  }

  predicate HasSpecial(s: string) {
    exists i :: 0 <= i < |s| && IsSpecial(s[i])
  }

  function YAMLQuote(printable: char -> bool, s: string): string {
    if s == "" then "\"\"" else if HasSpecial(s) then Quote(printable, s) else s
  }

  /** The metadata line for a field, or none when it is blank. */
  function MetaLine(printable: char -> bool, key: string, value: string): seq<string> {
    var v := TrimSpace(value);
    if v == "" then [] else [key + ": " + YAMLQuote(printable, v)]
  }

  function WriteMetaLine(printable: char -> bool, key: string, value: string): string {
    var v := TrimSpace(value);
    if v == "" then "" else key + ": " + YAMLQuote(printable, v) + "\n"
  }

  function RenderBody(raw: string): string {
    var body := TrimSpace(raw);
    if body == "" then "" else "\n" + body + "\n"
  }

  function Render(printable: char -> bool, c: Contract): string {
    if IsEmpty(c) then ""
    else
      "---\n" + WriteMetaLine(printable, "agent_id", c.agentID) + WriteMetaLine(printable, "agent_name", c.agentName)
      + WriteMetaLine(printable, "team", c.team) + "---\n" + RenderBody(c.body)
  }

  // ----- What a field is read back as -----

  function Reread(printable: char -> bool, value: string): string {
    var v := TrimSpace(value);
    if v == "" then "" else Trim(IsQuote, YAMLQuote(printable, v))
  }

  predicate OneLine(printable: char -> bool, value: string) {
    '\n' !in YAMLQuote(printable, TrimSpace(value))
  }

  /** The condition a caller can check: the value is trimmed; with a special character it is quoted, so it must not
      need escaping nor have a quote at an end; without one it is written raw, so it must be a single line. */
  predicate Survives(printable: char -> bool, value: string) {
    && Trimmed(IsSpace, value)
    && if HasSpecial(value) then AllPlain(printable, value) && Trimmed(IsQuote, value) else '\n' !in value
  }

  lemma NoQuotesWithoutSpecial(s: string)
    requires !HasSpecial(s)
    ensures Trimmed(IsQuote, s)
  {
  }

  lemma TrimQuotesOfQuoted(printable: char -> bool, v: string)
    ensures Trim(IsQuote, Quote(printable, v)) == Trim(IsQuote, Escapes(printable, v))
  {
    TrimPadded(IsQuote, "\"", Escapes(printable, v), "\"");
  }

  /** A value that is quoted and needs an escape comes back with more backslashes than it had. */
  lemma EscapedIsLost(printable: char -> bool, value: string)
    requires !AllPlain(printable, TrimSpace(value))
    ensures Trim(IsQuote, Quote(printable, TrimSpace(value))) != value
  {
    hide Trim, Escapes, Quote, AllPlain;
    var v := TrimSpace(value);
    TrimQuotesOfQuoted(printable, v);
    EscapesAddBackslashes(printable, v);
    TrimKeepsCount(IsQuote, Escapes(printable, v), '\\');
    TrimKeepsCount(IsSpace, value, '\\');
  }

  /** A quoted value that needs no escape comes back iff it was trimmed and has no quote at an end. */
  lemma PlainComesBack(printable: char -> bool, value: string)
    requires AllPlain(printable, TrimSpace(value))
    ensures Trim(IsQuote, Quote(printable, TrimSpace(value))) == value <==>
            Trimmed(IsSpace, value) && Trimmed(IsQuote, value)
  {
    hide Trim, Escapes, Quote, AllPlain, Trimmed;
    var v := TrimSpace(value);
    TrimQuotesOfQuoted(printable, v);
    PlainIsKept(printable, v);
    TrimLeaves(IsSpace, value);
    TrimLeaves(IsQuote, v);
  }

  /** Of the values that are written on one line, exactly those that survive are read back. */
  lemma RereadIffSurvives(printable: char -> bool, value: string)
    requires OneLine(printable, value)
    ensures Reread(printable, value) == value <==> Survives(printable, value)
  {
    hide Trim, Quote, AllPlain, Trimmed, IsSpecial;
    var v := TrimSpace(value);
    TrimLeaves(IsSpace, value);
    if HasSpecial(v) {
      if AllPlain(printable, v) { PlainComesBack(printable, value); } else { EscapedIsLost(printable, value); }
    } else {
      NoQuotesWithoutSpecial(v);
      TrimLeaves(IsQuote, v);
    }
  }

  // ----- Parsing what was rendered -----

  function MetaLines(printable: char -> bool, c: Contract): seq<string> {
    MetaLine(printable, "agent_id", c.agentID) + MetaLine(printable, "agent_name", c.agentName)
    + MetaLine(printable, "team", c.team)
  }

  predicate AllOneLine(printable: char -> bool, c: Contract) {
    OneLine(printable, c.agentID) && OneLine(printable, c.agentName) && OneLine(printable, c.team)
  }

  function Terminated(lines: seq<string>): string {
    if lines == [] then "" else lines[0] + "\n" + Terminated(lines[1..])
  }

  lemma TerminatedCons(line: string, rest: seq<string>)
    ensures Terminated([line] + rest) == line + "\n" + Terminated(rest)
  {
    assert ([line] + rest)[1..] == rest;
  }

  lemma NothingTerminated()
    ensures Terminated([]) == ""
  {
  }

  lemma Associates(a: string, b: string, c: string)
    ensures a + (b + c) == a + b + c
  {
  }

  lemma {:induction false} TerminatedConcat(a: seq<string>, b: seq<string>)
    ensures Terminated(a + b) == Terminated(a) + Terminated(b)
  {
    hide *;
    if a == [] {
      NothingTerminated();
      assert a + b == b;
    } else {
      var line, rest := a[0], a[1..];
      assert a == [line] + rest && a + b == [line] + (rest + b);
      TerminatedConcat(rest, b);
      TerminatedCons(line, rest);
      TerminatedCons(line, rest + b);
      Associates(line + "\n", Terminated(rest), Terminated(b));
    }
  }

  lemma {:induction false} JoinAfterTerminated(a: seq<string>, b: seq<string>)
    requires b != []
    ensures Join(a + b) == Terminated(a) + Join(b)
  {
    hide *;
    if a == [] {
      NothingTerminated();
      assert a + b == b;
    } else {
      var line, rest := a[0], a[1..];
      assert a == [line] + rest && a + b == [line] + (rest + b);
      JoinAfterTerminated(rest, b);
      TerminatedCons(line, rest);
      JoinCons(line, rest + b);
      Associates(line + "\n", Terminated(rest), Join(b));
    }
  }

  lemma WriteMetaLineIs(printable: char -> bool, key: string, value: string)
    ensures WriteMetaLine(printable, key, value) == Terminated(MetaLine(printable, key, value))
  {
    hide YAMLQuote, Trim;
    var lines := MetaLine(printable, key, value);
    if lines != [] { assert lines[1..] == []; }
  }

  function RenderedLines(printable: char -> bool, c: Contract): seq<string> {
    [FENCE] + MetaLines(printable, c) + [FENCE]
  }

  /** The rendered text, line by line. */
  lemma RenderIsLines(printable: char -> bool, c: Contract)
    requires !IsEmpty(c)
    ensures Render(printable, c) == Join(RenderedLines(printable, c) + Split(RenderBody(c.body)))
  {
    hide WriteMetaLine, MetaLine, RenderBody, Split, IsEmpty, Join, Terminated;
    var a, b, d := MetaLine(printable, "agent_id", c.agentID), MetaLine(printable, "agent_name", c.agentName),
      MetaLine(printable, "team", c.team);
    WriteMetaLineIs(printable, "agent_id", c.agentID);
    WriteMetaLineIs(printable, "agent_name", c.agentName);
    WriteMetaLineIs(printable, "team", c.team);
    JoinAfterTerminated(RenderedLines(printable, c), Split(RenderBody(c.body)));
    JoinSplit(RenderBody(c.body));
    TerminatedFive([FENCE], a, b, d, [FENCE]);
    TerminatedFence();
  }

  lemma TerminatedFence()
    ensures Terminated([FENCE]) == "---\n"
  {
    assert [FENCE][1..] == [];
  }

  lemma TerminatedFive(a: seq<string>, b: seq<string>, c: seq<string>, d: seq<string>, e: seq<string>)
    ensures Terminated(a + (b + c + d) + e) ==
            Terminated(a) + Terminated(b) + Terminated(c) + Terminated(d) + Terminated(e)
  {
    hide *;
    TerminatedConcat(a + (b + c + d), e);
    TerminatedConcat(a, b + c + d);
    TerminatedConcat(b + c, d);
    TerminatedConcat(b, c);
  }

  lemma MetaLineHasNoNewline(printable: char -> bool, key: string, value: string)
    requires '\n' !in key && OneLine(printable, value)
    ensures NoNewlines(MetaLine(printable, key, value))
  {
    hide YAMLQuote, Trim;
  }

  lemma RenderedLinesHaveNoNewlines(printable: char -> bool, c: Contract)
    requires AllOneLine(printable, c)
    ensures NoNewlines(RenderedLines(printable, c))
  {
    hide MetaLine, OneLine;
    MetaLineHasNoNewline(printable, "agent_id", c.agentID);
    MetaLineHasNoNewline(printable, "agent_name", c.agentName);
    MetaLineHasNoNewline(printable, "team", c.team);
  }

  /** Splitting the rendered text gives the fences, the metadata lines and the lines of the body. */
  lemma SplitRendered(printable: char -> bool, c: Contract)
    requires !IsEmpty(c) && AllOneLine(printable, c)
    ensures Split(Render(printable, c)) == RenderedLines(printable, c) + Split(RenderBody(c.body))
  {
    hide AllOneLine, IsEmpty, RenderedLines, Render, RenderBody, Join;
    RenderIsLines(printable, c);
    RenderedLinesHaveNoNewlines(printable, c);
    var lines := RenderedLines(printable, c) + Split(RenderBody(c.body));
    hide Split;
    SplitJoin(lines);
  }

  // ----- The fences -----

  predicate NoneCloses(lines: seq<string>) {
    forall i :: 0 <= i < |lines| ==> !Closes(lines[i])
  }

  lemma {:induction false} FirstClosingFence(lines: seq<string>, i: nat, n: nat)
    requires i <= n < |lines| && NoneCloses(lines[i..n]) && Closes(lines[n])
    ensures ClosingFence(lines, i) == Some(n)
    decreases n - i
  {
    hide Closes;
    if i < n {
      assert lines[i..n][0] == lines[i];
      assert lines[i + 1..n] == lines[i..n][1..];
      FirstClosingFence(lines, i + 1, n);
    }
  }

  lemma OtherFirstNeverCloses(line: string)
    requires line != "" && line[0] != '-' && !IsBlank(line[0])
    ensures !Closes(line)
  {
    TrimRightParts(IsBlank, line);
    var t := TrimRight(IsBlank, line);
    if t != "" { assert t[0] == line[0]; }
  }

  lemma FenceCloses()
    ensures Closes(FENCE)
  {
  }

  lemma MetaLineNeverCloses(printable: char -> bool, key: string, value: string)
    requires key != "" && key[0] != '-' && !IsBlank(key[0])
    ensures NoneCloses(MetaLine(printable, key, value))
  {
    hide YAMLQuote, Trim, Closes;
    var lines := MetaLine(printable, key, value);
    if lines != [] { OtherFirstNeverCloses(lines[0]); }
  }

  lemma RenderedClosing(printable: char -> bool, c: Contract, rest: seq<string>)
    ensures ClosingFence(RenderedLines(printable, c) + rest, 1) == Some(|MetaLines(printable, c)| + 1)
  {
    hide MetaLine, Closes;
    MetaLineNeverCloses(printable, "agent_id", c.agentID);
    MetaLineNeverCloses(printable, "agent_name", c.agentName);
    MetaLineNeverCloses(printable, "team", c.team);
    var meta := MetaLines(printable, c);
    hide MetaLines;
    var lines := RenderedLines(printable, c) + rest;
    assert lines[1..|meta| + 1] == meta;
    FenceCloses();
    FirstClosingFence(lines, 1, |meta| + 1);
  }

  // ----- The metadata lines -----

  lemma QuotedEnds(printable: char -> bool, v: string)
    requires v != "" && Trimmed(IsSpace, v)
    ensures var q := YAMLQuote(printable, v); q != "" && Trimmed(IsSpace, q)
  {
    hide HasSpecial, Escapes;
  }

  /** A metadata line gives back its key and its value without quotes at the ends. */
  lemma SplitMeta(key: string, q: string)
    requires key != "" && Trimmed(IsSpace, key) && key[0] != '#' && ':' !in key && q != "" && Trimmed(IsSpace, q)
    ensures SplitMetaLine(key + ": " + q) == Some((key, Trim(IsQuote, q)))
  {
    hide IsSpace, Trim, IsQuote, Trimmed, IndexByte;
    var line := key + ": " + q;
    MetaLineParts(key, q);
    TrimLeaves(IsSpace, line);
    TrimLeaves(IsSpace, key);
    TrimLeaves(IsSpace, q);
    TrimPaddedLeft(q);
  }

  lemma MetaLineParts(key: string, q: string)
    requires key != "" && Trimmed(IsSpace, key) && ':' !in key && q != "" && Trimmed(IsSpace, q)
    ensures var line := key + ": " + q; Trimmed(IsSpace, line) && line[0] == key[0] && IndexByte(line, ':') == |key|
    ensures var line := key + ": " + q; line[..|key|] == key && line[|key| + 1..] == " " + q
  {
    hide IsSpace;
    var tail := ": " + q;
    assert tail[0] == ':' && tail[1..] == " " + q;
    assert key + ": " + q == key + tail;
    ColonAfter(key, tail);
  }

  lemma ColonAfter(key: string, tail: string)
    requires ':' !in key && tail != "" && tail[0] == ':'
    ensures IndexByte(key + tail, ':') == |key|
    ensures (key + tail)[..|key|] == key && (key + tail)[|key| + 1..] == tail[1..]
  {
    IndexByteConcat(key, tail, ':');
  }

  lemma TrimPaddedLeft(q: string)
    ensures TrimSpace(" " + q) == TrimSpace(q)
  {
    TrimPadded(IsSpace, " ", q, "");
    assert " " + q + "" == " " + q;
  }

  lemma FillMetaLine(printable: char -> bool, c: Contract, before: seq<string>, key: string, value: string)
    requires key != "" && Trimmed(IsSpace, key) && key[0] != '#' && ':' !in key
    ensures TrimSpace(value) == "" ==> Fill(c, before + MetaLine(printable, key, value)) == Fill(c, before)
    ensures TrimSpace(value) != "" ==> Fill(c, before + MetaLine(printable, key, value)) ==
                                       SetField(Fill(c, before), Some((key, Reread(printable, value))))
  {
    hide YAMLQuote, Trim, SetField, SplitMetaLine, IsSpace;
    var v := TrimSpace(value);
    var lines := MetaLine(printable, key, value);
    if v == "" {
      assert before + lines == before;
    } else {
      TrimLeaves(IsSpace, value);
      QuotedEnds(printable, v);
      SplitMeta(key, YAMLQuote(printable, v));
      assert (before + lines)[..|before + lines| - 1] == before;
    }
  }

  lemma FillRendered(printable: char -> bool, c: Contract, body: string)
    ensures Fill(Contract("", "", "", body), MetaLines(printable, c)) ==
            Contract(Reread(printable, c.agentID), Reread(printable, c.agentName), Reread(printable, c.team), body)
  {
    var start := Contract("", "", "", body);
    var a, b := MetaLine(printable, "agent_id", c.agentID), MetaLine(printable, "agent_name", c.agentName);
    hide MetaLine, Trim, YAMLQuote, Fill;
    FillNothing(start);
    assert [] + a == a;
    FillMetaLine(printable, start, [], "agent_id", c.agentID);
    FillMetaLine(printable, start, a, "agent_name", c.agentName);
    FillMetaLine(printable, start, a + b, "team", c.team);
  }

  lemma FillNothing(c: Contract)
    ensures Fill(c, []) == c
  {
  }

  // ----- The body -----

  lemma BodyRoundTrip(raw: string)
    ensures TrimSpace(RenderBody(raw)) == TrimSpace(raw)
  {
    hide Trim;
    TrimLeaves(IsSpace, raw);
    TrimLeaves(IsSpace, TrimSpace(raw));
    TrimPadded(IsSpace, "\n", TrimSpace(raw), "\n");
  }

  // ----- The round trip -----

  lemma RenderOpensFence(printable: char -> bool, c: Contract)
    requires !IsEmpty(c)
    ensures OpensFence(Render(printable, c)) && TrimLeft(IsBlankOrNewline, Render(printable, c)) == Render(printable, c)
  {
    hide WriteMetaLine, RenderBody, IsEmpty;
    assert Render(printable, c)[..4] == "---\n";
  }

  /** What a rendered contract is read back as, when every value is written on one line. */
  lemma FrontmatterOfRendered(printable: char -> bool, c: Contract)
    requires !IsEmpty(c) && AllOneLine(printable, c)
    ensures Frontmatter(Render(printable, c)) ==
            Contract(Reread(printable, c.agentID), Reread(printable, c.agentName), Reread(printable, c.team), TrimSpace(c.body))
  {
    hide *;
    var text := Render(printable, c);
    var body := Split(RenderBody(c.body));
    var meta := MetaLines(printable, c);
    RenderOpensFence(printable, c);
    SplitRendered(printable, c);
    RenderedClosing(printable, c, body);
    FrontmatterAt(text, |meta| + 1);
    RenderedSlices(printable, c, body);
    JoinSplit(RenderBody(c.body));
    BodyRoundTrip(c.body);
    FillRendered(printable, c, TrimSpace(c.body));
  }

  lemma FrontmatterAt(text: string, close: nat)
    requires OpensFence(text) && TrimLeft(IsBlankOrNewline, text) == text
    requires ClosingFence(Split(text), 1) == Some(close)
    ensures close < |Split(text)|
    ensures 1 <= close
    ensures Frontmatter(text) ==
            Fill(Contract("", "", "", TrimSpace(Join(Split(text)[close + 1..]))), Split(text)[1..close])
  {
    hide OpensFence, Fill, Trim, Join, Split;
  }

  lemma RenderedSlices(printable: char -> bool, c: Contract, body: seq<string>)
    ensures var lines := RenderedLines(printable, c) + body; var n := |MetaLines(printable, c)| + 1;
      n < |lines| && lines[1..n] == MetaLines(printable, c) && lines[n + 1..] == body
  {
    hide MetaLines;
  }

  // ----- What no parsed value contains -----

  lemma {:induction false} TrimAddsNothing(cut: char -> bool, s: string, c: char)
    ensures c in Trim(cut, s) ==> c in s
  {
    TrimLeftParts(cut, s);
    TrimRightParts(cut, TrimLeft(cut, s));
  }

  lemma MetaValueOneLine(raw: string)
    requires '\n' !in raw
    ensures SplitMetaLine(raw).Some? ==> '\n' !in SplitMetaLine(raw).value.1
  {
    hide Trim;
    var line := TrimSpace(raw);
    TrimAddsNothing(IsSpace, raw, '\n');
    if SplitMetaLine(raw).Some? {
      var rest := line[IndexByte(line, ':') + 1..];
      TrimAddsNothing(IsSpace, rest, '\n');
      TrimAddsNothing(IsQuote, TrimSpace(rest), '\n');
    }
  }

  predicate FieldsOneLine(c: Contract) {
    '\n' !in c.agentID && '\n' !in c.agentName && '\n' !in c.team
  }

  lemma {:induction false} FillOneLine(c: Contract, lines: seq<string>)
    requires FieldsOneLine(c) && NoNewlines(lines)
    ensures FieldsOneLine(Fill(c, lines))
  {
    if lines != [] {
      hide SplitMetaLine;
      FillOneLine(c, lines[..|lines| - 1]);
      MetaValueOneLine(lines[|lines| - 1]);
    }
  }

  /** No text whatever parses to a value with a newline in it. */
  lemma ParsedFieldsAreOneLine(content: string)
    ensures FieldsOneLine(Frontmatter(content))
  {
    hide OpensFence, Trim, TrimLeft, Fill, Join, Closes, ClosingFence;
    var lines := Split(TrimLeft(IsBlankOrNewline, content));
    var close := ClosingFence(lines, 1);
    if close.Some? {
      FillOneLine(Contract("", "", "", TrimSpace(Join(lines[close.value + 1..]))), lines[1..close.value]);
    }
  }

  lemma NewlineIsKept(printable: char -> bool, value: string)
    requires !OneLine(printable, value)
    ensures '\n' in value && !Survives(printable, value)
  {
    var v := TrimSpace(value);
    EscapesOneLine(printable, v);
    TrimAddsNothing(IsSpace, value, '\n');
    hide Trim, AllPlain, Escapes;
    TrimLeaves(IsSpace, value);
  }

  /** Rendering and parsing give a contract back exactly when it is not empty, every metadata value survives, and the
      body is trimmed (whatever lines it contains). */
  lemma RoundTrip(printable: char -> bool, c: Contract)
    ensures Parse(Render(printable, c)) == Some(c) <==>
            && !IsEmpty(c)
            && Survives(printable, c.agentID) && Survives(printable, c.agentName) && Survives(printable, c.team)
            && Trimmed(IsSpace, c.body)
  {
    hide Frontmatter, Survives, OneLine, Trim, Trimmed, Reread;
    if !IsEmpty(c) {
      TrimLeaves(IsSpace, c.body);
      if AllOneLine(printable, c) {
        FrontmatterOfRendered(printable, c);
        RereadIffSurvives(printable, c.agentID);
        RereadIffSurvives(printable, c.agentName);
        RereadIffSurvives(printable, c.team);
      } else {
        ParsedFieldsAreOneLine(Render(printable, c));
        if !OneLine(printable, c.agentID) { NewlineIsKept(printable, c.agentID); }
        if !OneLine(printable, c.agentName) { NewlineIsKept(printable, c.agentName); }
        if !OneLine(printable, c.team) { NewlineIsKept(printable, c.team); }
      }
    }
  }

  function Named(name: string): Contract {
    Contract("a", name, "", "")
  }

  lemma NameRoundTrip(printable: char -> bool, name: string)
    ensures Parse(Render(printable, Named(name))) == Some(Named(name)) <==> Survives(printable, name)
  {
    hide Parse, Render, Trim, YAMLQuote;
    RoundTrip(printable, Named(name));
    assert "a"[0] == 'a';
  }

  lemma NamesThatFail(printable: char -> bool)
    ensures !Survives(printable, "A \"B\"") && !Survives(printable, "A\nB")
  {
    assert IsSpecial("A \"B\""[1]) && !Plain(printable, "A \"B\""[2]);
    assert "A\nB"[1] == '\n';
  }

  lemma NameThatSurvives(printable: char -> bool)
    ensures Survives(printable, "A: 'b' #1")
  {
    assert IsSpecial("A: 'b' #1"[1]);
  }

  /** Quotes inside a name, and a name of two lines without other special characters, do not come back; a name with
      other special characters does. */
  lemma LostNames(printable: char -> bool)
    ensures Parse(Render(printable, Named("A \"B\""))) != Some(Named("A \"B\""))
    ensures Parse(Render(printable, Named("A\nB"))) != Some(Named("A\nB"))
    ensures Parse(Render(printable, Named("A: 'b' #1"))) == Some(Named("A: 'b' #1"))
  {
    hide *;
    NamesThatFail(printable);
    NameThatSurvives(printable);
    NameRoundTrip(printable, "A \"B\"");
    NameRoundTrip(printable, "A\nB");
    NameRoundTrip(printable, "A: 'b' #1");
  }

  // ----- Texts that were not rendered -----

  /** Nothing in the text opens a header, or nothing closes the one it opens. */
  predicate NoClosedHeader(content: string) {
    var rest := TrimLeft(IsBlankOrNewline, content);
    || (!HasPrefix(rest, "---\n") && !HasPrefix(rest, "---\r\n"))
    || forall i :: 1 <= i < |Split(rest)| ==> TrimRight(IsBlank, Split(rest)[i]) != "---"
  }

  lemma {:induction false} NoFenceFound(lines: seq<string>, i: nat)
    requires forall j :: i <= j < |lines| ==> !Closes(lines[j])
    ensures ClosingFence(lines, i) == None
    decreases |lines| - i
  {
    if i < |lines| { NoFenceFound(lines, i + 1); }
  }

  /** A missing or unterminated header never drops the instructions: the whole text is the body. */
  lemma BodyIsKept(content: string)
    requires NoClosedHeader(content)
    ensures Parse(content) ==
            if TrimSpace(content) == "" then None else Some(Contract("", "", "", TrimSpace(content)))
  {
    hide Trim, TrimRight, TrimLeft, Split, Fill, Join;
    var rest := TrimLeft(IsBlankOrNewline, content);
    TrimTwice(content);
    if OpensFence(rest) { NoFenceFound(Split(rest), 1); }
  }

  lemma TrimTwice(s: string)
    ensures TrimSpace(TrimSpace(s)) == TrimSpace(s)
  {
    hide Trim;
    TrimLeaves(IsSpace, s);
    TrimLeaves(IsSpace, TrimSpace(s));
  }

  /** A header written by hand: everything between the first two fences is metadata, everything behind is the body. */
  lemma HandWrittenHeader(meta: seq<string>, body: seq<string>)
    requires NoNewlines(meta) && NoneCloses(meta) && body != [] && NoNewlines(body)
    ensures Frontmatter(Join(["---"] + meta + ["---"] + body)) ==
            Fill(Contract("", "", "", TrimSpace(Join(body))), meta)
  {
    hide Fill, Trim, Closes, Split, Join, TrimLeft;
    var lines := ["---"] + meta + ["---"] + body;
    var text := Join(lines);
    SplitJoin(lines);
    FenceCloses();
    assert lines[1..|meta| + 1] == meta && lines[|meta| + 2..] == body;
    FirstClosingFence(lines, 1, |meta| + 1);
    OpenedText(lines);
    FrontmatterAt(text, |meta| + 1);
  }

  lemma OpenedText(lines: seq<string>)
    requires |lines| > 1 && lines[0] == "---"
    ensures OpensFence(Join(lines)) && TrimLeft(IsBlankOrNewline, Join(lines)) == Join(lines)
  {
    hide Join;
    JoinCons(lines[0], lines[1..]);
    assert lines == [lines[0]] + lines[1..];
    assert Join(lines)[..4] == "---\n";
  }

  lemma MetaLineSets(c: Contract, lines: seq<string>, key: string, value: string)
    requires value != "" && Trimmed(IsSpace, value) && key != "" && Trimmed(IsSpace, key) && key[0] != '#' && ':' !in key
    ensures Fill(c, lines + [key + ": " + value]) == SetField(Fill(c, lines), Some((key, Trim(IsQuote, value))))
  {
    hide *;
    FillSnoc(c, lines, key + ": " + value);
    SplitMeta(key, value);
  }

  /** The metadata lines of such a header: a known key sets its field, so that the last line for it wins, and an unknown
      key is ignored. */
  lemma MetaLineMeans(c: Contract, lines: seq<string>, key: string, value: string)
    requires value != "" && Trimmed(IsSpace, value) && key != "" && Trimmed(IsSpace, key) && key[0] != '#' && ':' !in key
    ensures var before, after := Fill(c, lines), Fill(c, lines + [key + ": " + value]); var text := Trim(IsQuote, value);
      && (key == "agent_id" ==> after == before.(agentID := text))
      && (key == "agent_name" ==> after == before.(agentName := text))
      && (key == "team" ==> after == before.(team := text))
      && (key != "agent_id" && key != "agent_name" && key != "team" ==> after == before)
  {
    hide Trim, Fill, Trimmed;
    MetaLineSets(c, lines, key, value);
  }

  lemma FillSnoc(c: Contract, lines: seq<string>, line: string)
    ensures Fill(c, lines + [line]) == SetField(Fill(c, lines), SplitMetaLine(line))
  {
    hide SetField, SplitMetaLine;
    assert (lines + [line])[..|lines|] == lines;
  }

  /** Blank lines, comments and lines without a colon are ignored. */
  lemma IgnoredLine(c: Contract, lines: seq<string>, line: string)
    requires TrimSpace(line) == "" || TrimSpace(line)[0] == '#' || ':' !in TrimSpace(line)
    ensures Fill(c, lines + [line]) == Fill(c, lines)
  {
    hide Trim;
    FillSnoc(c, lines, line);
  }

  /** The characters that make Render quote a value. */
  lemma SpecialIs(c: char)
    ensures IsSpecial(c) <==> c in ":#{}[]&*!|>%@`,\"' \t"
  {
  }
}
