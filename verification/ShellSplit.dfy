/**
splitCommandString (fakebash/fakebash.go): cuts a shell command string into commands and words, byte by
byte.  A `char` is a byte.
*/
module ShellSplit {

  type Words = seq<string>

  /** unicode.IsSpace of a single byte. */
  predicate IsSpace(c: char) {
    9 <= c as int <= 13 || c == ' ' || c as int == 0x85 || c as int == 0xA0
  }

  /** The variables of the scanning loop. */
  datatype Scanner = Scanner(commands: seq<Words>, cmd: Words, word: string,
                             single: bool, double: bool, escaped: bool, started: bool)
  {
    function EmitWord(): Scanner {
      if started || |word| > 0 then this.(cmd := cmd + [word], word := "", started := false) else this
    }

    function EmitCommand(): Scanner {
      var s := EmitWord();
      if |s.cmd| > 0 then s.(commands := s.commands + [s.cmd], cmd := []) else s
    }

    predicate Plain() {
      !single && !double && !escaped
    }

    /** One byte; the second byte of && and || is skipped by Width. */
    function Feed(c: char): Scanner {
      if escaped then this.(word := word + [c], escaped := false, started := true)
      else if c == '\\' && !single then this.(escaped := true, started := true)
      else if c == '\'' && !double then this.(single := !single, started := true)
      else if c == '"' && !single then this.(double := !double, started := true)
      else if Plain() && (c == ';' || c == '\n' || c == '&' || c == '|') then EmitCommand()
      else if Plain() && IsSpace(c) then EmitWord()
      else this.(word := word + [c], started := true)
    }

    function Width(s: string): nat
      requires |s| > 0
    {
      if Plain() && (s[0] == '&' || s[0] == '|') && |s| > 1 && s[1] == s[0] then 2 else 1
    }
  }

  const START := Scanner([], [], "", false, false, false, false)

  function Scan(st: Scanner, s: string): Scanner
    decreases |s|
  {
    if s == "" then st else Scan(st.Feed(s[0]), s[st.Width(s)..])
  }

  function Split(s: string): seq<Words> {
    Scan(START, s).EmitCommand().commands
  }

  method SplitCommandString(cmdStr: string) returns (commands: seq<Words>)
    ensures commands == Split(cmdStr)
  {
    hide Scan, IsSpace;
    var currentCmd: Words, currentWord := [], "";
    commands := [];
    var inSingleQuote, inDoubleQuote, escaped, wordStarted := false, false, false, false;
    var i := 0;
    assert cmdStr[0..] == cmdStr;
    while i < |cmdStr|
      invariant i <= |cmdStr|
      invariant Scan(Scanner(commands, currentCmd, currentWord, inSingleQuote, inDoubleQuote, escaped, wordStarted),
                     cmdStr[i..]) == Scan(START, cmdStr)
    {
      var c := cmdStr[i];
      var next := if i + 1 < |cmdStr| then [cmdStr[i + 1]] else [];
      ghost var st := Scanner(commands, currentCmd, currentWord, inSingleQuote, inDoubleQuote, escaped, wordStarted);
      ScanNext(st, cmdStr, i);
      if escaped {
        currentWord := currentWord + [c];
        escaped := false;
        wordStarted := true;
      } else if c == '\\' && !inSingleQuote {
        escaped := true;
        wordStarted := true;
      } else if c == '\'' && !inDoubleQuote {
        inSingleQuote := !inSingleQuote;
        wordStarted := true;
      } else if c == '"' && !inSingleQuote {
        inDoubleQuote := !inDoubleQuote;
        wordStarted := true;
      } else if !inSingleQuote && !inDoubleQuote && (c == ';' || c == '\n' || c == '&' || c == '|') {
        if (c == '&' || c == '|') && next == [c] {
          i := i + 1;
        }
        commands, currentCmd, currentWord, wordStarted :=
          EmitCommand(commands, currentCmd, currentWord, wordStarted);
      } else if !inSingleQuote && !inDoubleQuote && IsSpace(c) {
        currentCmd, currentWord, wordStarted := EmitWord(currentCmd, currentWord, wordStarted);
      } else {
        currentWord := currentWord + [c];
        wordStarted := true;
      }
      i := i + 1;
    }
    ScanEnd(Scanner(commands, currentCmd, currentWord, inSingleQuote, inDoubleQuote, escaped, wordStarted),
            cmdStr[i..]);
    commands, currentCmd, currentWord, wordStarted := EmitCommand(commands, currentCmd, currentWord, wordStarted);
  }

  method EmitWord(cmd: Words, word: string, started: bool) returns (cmd': Words, word': string, started': bool)
    ensures var s := Scanner([], cmd, word, false, false, false, started).EmitWord();
            cmd' == s.cmd && word' == s.word && started' == s.started
  {
    cmd', word', started' := cmd, word, started;
    if started || |word| > 0 {
      cmd' := cmd + [word];
      word' := "";
      started' := false;
    }
  }

  method EmitCommand(commands: seq<Words>, cmd: Words, word: string, started: bool)
    returns (commands': seq<Words>, cmd': Words, word': string, started': bool)
    ensures var s := Scanner(commands, cmd, word, false, false, false, started).EmitCommand();
            commands' == s.commands && cmd' == s.cmd && word' == s.word && started' == s.started
  {
    commands' := commands;
    cmd', word', started' := EmitWord(cmd, word, started);
    if |cmd'| > 0 {
      commands' := commands' + [cmd'];
      cmd' := [];
    }
  }

  lemma ScanEnd(st: Scanner, s: string)
    requires |s| == 0
    ensures Scan(st, s) == st
  {
  }

  lemma ScanNext(st: Scanner, s: string, i: nat)
    requires i < |s|
    ensures s[i..] != "" && st.Width(s[i..]) <= |s| - i
    ensures st.Width(s[i..]) ==
            if st.Plain() && (s[i] == '&' || s[i] == '|') && i + 1 < |s| && s[i + 1] == s[i] then 2 else 1
    ensures Scan(st, s[i..]) == Scan(st.Feed(s[i]), s[i + st.Width(s[i..])..])
  {
    assert s[i..][st.Width(s[i..])..] == s[i + st.Width(s[i..])..];
  }

  // ----- Splitting never makes words out of nothing -----

  /** The length of a list of words, each with one separator. */
  function Total(ws: Words): nat {
    if ws == [] then 0 else Total(ws[..|ws| - 1]) + |ws[|ws| - 1]| + 1
  }

  function TotalAll(cs: seq<Words>): nat {
    if cs == [] then 0 else TotalAll(cs[..|cs| - 1]) + Total(cs[|cs| - 1])
  }

  lemma TotalNext(ws: Words, w: string)
    ensures Total(ws + [w]) == Total(ws) + |w| + 1
  {
    assert (ws + [w])[..|ws|] == ws;
  }

  lemma TotalAllNext(cs: seq<Words>, ws: Words)
    ensures TotalAll(cs + [ws]) == TotalAll(cs) + Total(ws)
  {
    assert (cs + [ws])[..|cs|] == cs;
  }

  function Load(st: Scanner): nat {
    TotalAll(st.commands) + Total(st.cmd) + |st.word|
  }

  predicate StartedIfAny(st: Scanner) {
    |st.word| > 0 ==> st.started
  }

  lemma EmitAddsOne(st: Scanner)
    requires StartedIfAny(st)
    ensures StartedIfAny(st.EmitWord()) && StartedIfAny(st.EmitCommand())
    ensures Load(st.EmitWord()) <= Load(st) + 1 && Load(st.EmitCommand()) <= Load(st) + 1
  {
    TotalNext(st.cmd, st.word);
    TotalAllNext(st.commands, st.EmitWord().cmd);
  }

  lemma FeedLoad(st: Scanner, c: char)
    requires StartedIfAny(st)
    ensures StartedIfAny(st.Feed(c)) && Load(st.Feed(c)) <= Load(st) + 1
  {
    hide Total, TotalAll, IsSpace;
    EmitAddsOne(st);
  }

  lemma {:induction false} ScanLoad(st: Scanner, s: string)
    requires StartedIfAny(st)
    ensures StartedIfAny(Scan(st, s)) && Load(Scan(st, s)) <= Load(st) + |s|
    decreases |s|
  {
    if s != "" {
      hide Load, StartedIfAny, Scanner.Feed;
      FeedLoad(st, s[0]);
      ScanLoad(st.Feed(s[0]), s[st.Width(s)..]);
    }
  }

  /** The words of a split string, counted with one separator each, are no longer than the string and one
      separator. */
  lemma SplitBound(s: string)
    ensures TotalAll(Split(s)) <= |s| + 1
  {
    ScanLoad(START, s);
    EmitAddsOne(Scan(START, s));
  }

  // ----- What the bytes of a command line mean -----

  /** A byte inside double quotes, as it is or behind a backslash. */
  datatype Inner = Literal(c: char) | Behind(c: char)

  /** A part of a word: a bare byte, a byte behind a backslash, or a run in single or double quotes. */
  datatype Piece = Bare(c: char) | Backslash(c: char) | Single(s: string) | Double(inners: seq<Inner>)

  /** The separators of commands. */
  predicate IsOperator(c: char) {
    c == ';' || c == '\n' || c == '&' || c == '|'
  }

  /** The bytes that only separate words. */
  predicate IsGapByte(c: char) {
    var n := c as int;
    n == 9 || n == 11 || n == 12 || n == 13 || n == 32 || n == 0x85 || n == 0xA0
  }

  predicate ProperInner(i: Inner) {
    i.Literal? ==> i.c != '"' && i.c != '\\'
  }

  predicate ProperPiece(p: Piece) {
    match p
    case Bare(c) => !IsGapByte(c) && !IsOperator(c) && c != '\\' && c != '\'' && c != '"'
    case Backslash(_) => true
    case Single(s) => '\'' !in s
    case Double(inners) => forall i :: 0 <= i < |inners| ==> ProperInner(inners[i])
  }

  function WriteInner(i: Inner): string {
    if i.Literal? then [i.c] else ['\\', i.c]
  }

  function WriteInners(inners: seq<Inner>): string {
    if inners == [] then "" else WriteInner(inners[0]) + WriteInners(inners[1..])
  }

  function InnerText(inners: seq<Inner>): string {
    if inners == [] then "" else [inners[0].c] + InnerText(inners[1..])
  }

  /** How a piece is written, and what it stands for. */
  function WritePiece(p: Piece): string {
    match p
    case Bare(c) => [c]
    case Backslash(c) => ['\\', c]
    case Single(s) => "'" + s + "'"
    case Double(inners) => "\"" + WriteInners(inners) + "\""
  }

  function PieceText(p: Piece): string {
    match p
    case Bare(c) => [c]
    case Backslash(c) => [c]
    case Single(s) => s
    case Double(inners) => InnerText(inners)
  }

  type Pieces = seq<Piece>

  /** A word is a non-empty list of pieces. */
  predicate ProperWord(w: Pieces) {
    w != [] && forall i :: 0 <= i < |w| ==> ProperPiece(w[i])
  }

  function WriteWord(w: Pieces): string {
    if w == [] then "" else WritePiece(w[0]) + WriteWord(w[1..])
  }

  function WordText(w: Pieces): string {
    if w == [] then "" else PieceText(w[0]) + WordText(w[1..])
  }

  predicate IsGap(s: string) {
    forall i :: 0 <= i < |s| ==> IsGapByte(s[i])
  }

  /** A word with the gap in front of it. */
  datatype Spaced = Spaced(gap: string, word: Pieces)

  /** A command: words with a gap in front of each; only the first may go without. */
  predicate ProperCommand(c: seq<Spaced>) {
    && c != []
    && (forall i :: 0 <= i < |c| ==> IsGap(c[i].gap) && ProperWord(c[i].word))
    && (forall i :: 0 < i < |c| ==> c[i].gap != "")
  }

  function WriteCommand(c: seq<Spaced>): string {
    if c == [] then "" else c[0].gap + WriteWord(c[0].word) + WriteCommand(c[1..])
  }

  function CommandText(c: seq<Spaced>): Words {
    if c == [] then [] else [WordText(c[0].word)] + CommandText(c[1..])
  }

  predicate IsSeparator(s: string) {
    s == ";" || s == "\n" || s == "&&" || s == "||" || s == "&" || s == "|"
  }

  /** A command and the separator behind it, with the gap in front of the separator. */
  datatype Ended = Ended(command: seq<Spaced>, gap: string, separator: string)

  predicate ProperEnded(e: Ended) {
    ProperCommand(e.command) && IsGap(e.gap) && IsSeparator(e.separator)
  }

  function WriteEnded(es: seq<Ended>): string {
    if es == [] then "" else WriteCommand(es[0].command) + es[0].gap + es[0].separator + WriteEnded(es[1..])
  }

  function EndedText(es: seq<Ended>): seq<Words> {
    if es == [] then [] else [CommandText(es[0].command)] + EndedText(es[1..])
  }

  // ----- Scanning what is written -----

  /** One step over a byte that is not the first half of && or ||. */
  lemma ScanByte(st: Scanner, c: char, rest: string)
    requires st.Plain() && (c == '&' || c == '|') ==> rest == "" || rest[0] != c
    ensures Scan(st, [c] + rest) == Scan(st.Feed(c), rest)
  {
    var s := [c] + rest;
    assert s[1..] == rest;
    assert rest != "" ==> s[1] == rest[0];
  }

  lemma WordGrows(st: Scanner, a: string, b: string)
    ensures st.(word := st.word + a + b) == st.(word := st.word + (a + b))
  {
    assert st.word + a + b == st.word + (a + b);
  }

  /** Inside single quotes everything up to the closing quote is literal. */
  lemma {:induction false} ScanSingle(st: Scanner, s: string, rest: string)
    requires st.single && !st.double && !st.escaped && '\'' !in s
    ensures Scan(st, s + ("'" + rest)) == Scan(st.(word := st.word + s, single := false, started := true), rest)
    decreases |s|
  {
    hide Scan, IsSpace;
    if s == "" {
      assert s + ("'" + rest) == ['\''] + rest;
      ScanByte(st, '\'', rest);
      assert st.word + s == st.word;
    } else {
      var tail := s[1..] + ("'" + rest);
      assert s + ("'" + rest) == [s[0]] + tail;
      ScanByte(st, s[0], tail);
      ScanSingle(st.(word := st.word + [s[0]], started := true), s[1..], rest);
      assert [s[0]] + s[1..] == s;
      WordGrows(st, [s[0]], s[1..]);
    }
  }

  lemma ScanInner(st: Scanner, i: Inner, rest: string)
    requires !st.single && st.double && !st.escaped && ProperInner(i)
    ensures Scan(st, WriteInner(i) + rest) == Scan(st.(word := st.word + [i.c], started := true), rest)
  {
    hide Scan, IsSpace;
    if i.Literal? {
      ScanByte(st, i.c, rest);
    } else {
      assert WriteInner(i) + rest == ['\\'] + ([i.c] + rest);
      ScanByte(st, '\\', [i.c] + rest);
      ScanByte(st.(escaped := true, started := true), i.c, rest);
    }
  }

  lemma InnersStep(inners: seq<Inner>, rest: string)
    requires inners != []
    ensures WriteInners(inners) + rest == WriteInner(inners[0]) + (WriteInners(inners[1..]) + rest)
    ensures InnerText(inners) == [inners[0].c] + InnerText(inners[1..])
  {
    hide WriteInner;
  }

  /** Inside double quotes a backslash keeps the next byte, whatever it is. */
  lemma {:induction false} ScanDouble(st: Scanner, inners: seq<Inner>, rest: string)
    requires !st.single && st.double && !st.escaped && forall i :: 0 <= i < |inners| ==> ProperInner(inners[i])
    ensures Scan(st, WriteInners(inners) + ("\"" + rest)) ==
            Scan(st.(word := st.word + InnerText(inners), double := false, started := true), rest)
    decreases |inners|
  {
    hide Scan, IsSpace, ProperInner;
    if inners == [] {
      assert WriteInners(inners) + ("\"" + rest) == ['"'] + rest;
      ScanByte(st, '"', rest);
      assert st.word + InnerText(inners) == st.word;
    } else {
      hide WriteInners, InnerText, Scanner.Feed;
      var c := inners[0].c;
      InnersStep(inners, "\"" + rest);
      ScanInner(st, inners[0], WriteInners(inners[1..]) + ("\"" + rest));
      ScanDouble(st.(word := st.word + [c], started := true), inners[1..], rest);
      WordGrows(st, [c], InnerText(inners[1..]));
    }
  }

  lemma GapByteIsSpace(c: char)
    ensures IsGapByte(c) ==> IsSpace(c) && !IsOperator(c) && c != '\\' && c != '\'' && c != '"'
    ensures IsSpace(c) ==> IsGapByte(c) || c == '\n'
  {
  }

  lemma ScanBare(st: Scanner, c: char, rest: string)
    requires st.Plain() && ProperPiece(Bare(c))
    ensures Scan(st, [c] + rest) == Scan(st.(word := st.word + [c], started := true), rest)
  {
    hide Scan, IsSpace, IsGapByte;
    GapByteIsSpace(c);
    ScanByte(st, c, rest);
  }

  lemma ScanBackslash(st: Scanner, c: char, rest: string)
    requires st.Plain()
    ensures Scan(st, ['\\', c] + rest) == Scan(st.(word := st.word + [c], started := true), rest)
  {
    hide Scan, IsSpace;
    assert ['\\', c] + rest == ['\\'] + ([c] + rest);
    ScanByte(st, '\\', [c] + rest);
    ScanByte(st.(escaped := true, started := true), c, rest);
  }

  lemma ScanSingleRun(st: Scanner, s: string, rest: string)
    requires st.Plain() && '\'' !in s
    ensures Scan(st, "'" + s + "'" + rest) == Scan(st.(word := st.word + s, started := true), rest)
  {
    hide Scan, IsSpace;
    assert "'" + s + "'" + rest == ['\''] + (s + ("'" + rest));
    ScanByte(st, '\'', s + ("'" + rest));
    ScanSingle(st.(single := true, started := true), s, rest);
  }

  lemma ScanDoubleRun(st: Scanner, inners: seq<Inner>, rest: string)
    requires st.Plain() && forall i :: 0 <= i < |inners| ==> ProperInner(inners[i])
    ensures Scan(st, "\"" + WriteInners(inners) + "\"" + rest) ==
            Scan(st.(word := st.word + InnerText(inners), started := true), rest)
  {
    hide Scan, IsSpace, WriteInners, InnerText, ProperInner;
    assert "\"" + WriteInners(inners) + "\"" + rest == ['"'] + (WriteInners(inners) + ("\"" + rest));
    ScanByte(st, '"', WriteInners(inners) + ("\"" + rest));
    ScanDouble(st.(double := true, started := true), inners, rest);
  }

  lemma ScanPiece(st: Scanner, p: Piece, rest: string)
    requires st.Plain() && ProperPiece(p)
    ensures Scan(st, WritePiece(p) + rest) == Scan(st.(word := st.word + PieceText(p), started := true), rest)
  {
    hide Scan, IsGapByte, IsOperator, WriteInners, InnerText, ProperInner;
    match p
    case Bare(c) => ScanBare(st, c, rest);
    case Backslash(c) => ScanBackslash(st, c, rest);
    case Single(s) => ScanSingleRun(st, s, rest);
    case Double(inners) => ScanDoubleRun(st, inners, rest);
  }

  lemma {:induction false} ScanWord(st: Scanner, w: Pieces, rest: string)
    requires st.Plain() && forall i :: 0 <= i < |w| ==> ProperPiece(w[i])
    ensures Scan(st, WriteWord(w) + rest) ==
            Scan(if w == [] then st else st.(word := st.word + WordText(w), started := true), rest)
    decreases |w|
  {
    hide Scan, WritePiece, PieceText, ProperPiece;
    if w == [] {
      assert WriteWord(w) + rest == rest;
    } else {
      var tail := WriteWord(w[1..]) + rest;
      assert WriteWord(w) + rest == WritePiece(w[0]) + tail;
      ScanPiece(st, w[0], tail);
      ScanWord(st.(word := st.word + PieceText(w[0]), started := true), w[1..], rest);
      WordGrows(st, PieceText(w[0]), WordText(w[1..]));
      assert w[1..] == [] ==> PieceText(w[0]) + WordText(w[1..]) == PieceText(w[0]);
    }
  }

  /** A gap ends the pending word, and nothing else. */
  lemma {:induction false} ScanGap(st: Scanner, gap: string, rest: string)
    requires st.Plain() && IsGap(gap)
    ensures Scan(st, gap + rest) == Scan(if gap == "" then st else st.EmitWord(), rest)
    decreases |gap|
  {
    hide Scan, IsSpace, IsGapByte;
    if gap == "" {
      assert gap + rest == rest;
    } else {
      GapByteIsSpace(gap[0]);
      assert gap + rest == [gap[0]] + (gap[1..] + rest);
      ScanByte(st, gap[0], gap[1..] + rest);
      ScanGap(st.EmitWord(), gap[1..], rest);
    }
  }

  /** Between words: nothing pending, no quote open. */
  predicate Between(st: Scanner) {
    st.Plain() && st.word == "" && !st.started
  }

  /** The word w is pending behind the words before. */
  function Pending(st: Scanner, before: Words, w: string): Scanner {
    st.(cmd := st.cmd + before, word := w, started := true)
  }

  /** The last of the words is pending. */
  function Left(st: Scanner, ws: Words): Scanner
    requires ws != []
  {
    Pending(st, ws[..|ws| - 1], ws[|ws| - 1])
  }

  lemma LeftCons(st: Scanner, w: string, ws: Words)
    requires st.Plain() && ws != []
    ensures Left(Pending(st, [], w).EmitWord(), ws) == Left(st, [w] + ws)
    ensures Pending(st, [], w).Plain()
  {
    assert ([w] + ws)[..|ws|] == [w] + ws[..|ws| - 1];
    assert st.cmd + [] + [w] + ws[..|ws| - 1] == st.cmd + ([w] + ws[..|ws| - 1]);
  }

  lemma PendingIsPlain(st: Scanner, w: string)
    requires Between(st)
    ensures st.Plain() && Pending(st, [], w).Plain()
  {
  }

  lemma LeftOne(st: Scanner, w: string)
    ensures Left(st, [w]) == Pending(st, [], w)
  {
  }

  lemma CommandParts(c: seq<Spaced>)
    requires ProperCommand(c)
    ensures c != [] && IsGap(c[0].gap) && ProperWord(c[0].word)
    ensures |c| > 1 ==> ProperCommand(c[1..]) && c[1..][0].gap != ""
  {
    hide IsGap, ProperWord;
  }

  lemma CommandTexts(c: seq<Spaced>, rest: string)
    requires c != []
    ensures CommandText(c) == [WordText(c[0].word)] + CommandText(c[1..])
    ensures WriteCommand(c) + rest == c[0].gap + (WriteWord(c[0].word) + (WriteCommand(c[1..]) + rest))
  {
    hide WriteWord, WordText;
  }

  lemma NothingWritten(rest: string)
    ensures CommandText([]) == [] && WriteCommand([]) + rest == rest
  {
  }

  lemma EmitWordIsBetween(st: Scanner)
    requires st.Plain()
    ensures Between(st.EmitWord())
    ensures Between(st) ==> st.EmitWord() == st
  {
  }

  /** A command leaves its last word pending. */
  lemma {:induction false} ScanCommand(st: Scanner, c: seq<Spaced>, rest: string)
    requires ProperCommand(c) && st.Plain() && (Between(st) || c[0].gap != "")
    ensures CommandText(c) != []
    ensures Scan(st, WriteCommand(c) + rest) == Scan(Left(st.EmitWord(), CommandText(c)), rest)
    decreases |c|
  {
    hide *;
    CommandParts(c);
    CommandTexts(c, rest);
    var w, ready := WordText(c[0].word), st.EmitWord();
    var tail := WriteCommand(c[1..]) + rest;
    EmitWordIsBetween(st);
    ScanGap(st, c[0].gap, WriteWord(c[0].word) + tail);
    ScanFirstWord(ready, c[0].word, tail);
    if |c| == 1 {
      assert c[1..] == [] && [w] + [] == [w];
      NothingWritten(rest);
      LeftOne(ready, w);
    } else {
      PendingIsPlain(ready, w);
      ScanCommand(Pending(ready, [], w), c[1..], rest);
      LeftCons(ready, w, CommandText(c[1..]));
    }
  }

  lemma ScanFirstWord(st: Scanner, w: Pieces, rest: string)
    requires Between(st) && ProperWord(w)
    ensures Scan(st, WriteWord(w) + rest) == Scan(Pending(st, [], WordText(w)), rest)
  {
    hide Scan, WriteWord, WordText;
    ScanWord(st, w, rest);
    assert st.word + WordText(w) == WordText(w) && st.cmd + [] == st.cmd;
  }

  /** A separator ends the pending command; && and || are told from & and | by the byte behind them. */
  lemma ScanSeparator(st: Scanner, sep: string, rest: string)
    requires st.Plain() && IsSeparator(sep) && (rest != "" ==> rest[0] != '&' && rest[0] != '|')
    ensures Scan(st, sep + rest) == Scan(st.EmitCommand(), rest)
  {
    hide IsSpace, Scanner.EmitCommand;
    if |sep| == 1 {
      assert sep == [sep[0]];
      ScanByte(st, sep[0], rest);
    } else {
      var s := sep + rest;
      assert s[0] == sep[0] && s[1] == sep[1] && s[2..] == rest;
    }
  }

  lemma PendingCommand(st: Scanner, ws: Words)
    requires st.cmd == [] && ws != []
    ensures Left(st, ws).EmitCommand() == st.(commands := st.commands + [ws], cmd := [], word := "", started := false)
    ensures Left(st, ws).EmitWord().EmitCommand() == Left(st, ws).EmitCommand()
  {
    assert [] + ws[..|ws| - 1] + [ws[|ws| - 1]] == ws;
  }

  /** No command starts with the second half of && or ||. */
  lemma CommandStarts(c: seq<Spaced>, rest: string)
    requires ProperCommand(c)
    ensures var s := WriteCommand(c) + rest; s != "" && s[0] != '&' && s[0] != '|'
  {
    var w := c[0].word;
    assert ProperWord(w) && ProperPiece(w[0]) && IsGap(c[0].gap);
    assert WriteWord(w)[0] == WritePiece(w[0])[0];
    if c[0].gap != "" { assert IsGapByte(c[0].gap[0]); }
  }

  /** Where the commands that end in a separator leave the scanner: between words, with the commands collected. */
  lemma {:induction false} ScanEnded(st: Scanner, es: seq<Ended>, rest: string)
    requires Between(st) && st.cmd == [] && forall i :: 0 <= i < |es| ==> ProperEnded(es[i])
    requires rest != "" ==> rest[0] != '&' && rest[0] != '|'
    ensures Scan(st, WriteEnded(es) + rest) == Scan(st.(commands := st.commands + EndedText(es)), rest)
    decreases |es|
  {
    hide *;
    if es == [] {
      NothingEnded(rest);
      assert st.commands + [] == st.commands;
    } else {
      var e, tail := es[0], WriteEnded(es[1..]) + rest;
      var next := st.(commands := st.commands + [CommandText(e.command)]);
      EndedTail(es, rest);
      EndedStarts(es[1..], rest);
      ScanOneEnded(st, e, tail);
      StillBetween(st, next.commands);
      ScanEnded(next, es[1..], rest);
      assert next.commands + EndedText(es[1..]) == st.commands + ([CommandText(e.command)] + EndedText(es[1..]));
    }
  }

  lemma NothingEnded(rest: string)
    ensures EndedText([]) == [] && WriteEnded([]) + rest == rest
  {
  }

  lemma StillBetween(st: Scanner, commands: seq<Words>)
    requires Between(st)
    ensures Between(st.(commands := commands))
  {
  }

  lemma ScanOneEnded(st: Scanner, e: Ended, tail: string)
    requires Between(st) && st.cmd == [] && ProperEnded(e)
    requires tail != "" ==> tail[0] != '&' && tail[0] != '|'
    ensures Scan(st, WriteCommand(e.command) + (e.gap + (e.separator + tail))) ==
            Scan(st.(commands := st.commands + [CommandText(e.command)]), tail)
  {
    hide Scan, WriteCommand, CommandText, ProperCommand, IsGap, IsSeparator;
    var ws := CommandText(e.command);
    ScanEndedCommand(st, e.command, e.gap + (e.separator + tail));
    var pending := Left(st, ws);
    ScanGap(pending, e.gap, e.separator + tail);
    ScanSeparator(if e.gap == "" then pending else pending.EmitWord(), e.separator, tail);
    PendingCommand(st, ws);
  }

  lemma ScanEndedCommand(st: Scanner, c: seq<Spaced>, rest: string)
    requires Between(st) && ProperCommand(c)
    ensures CommandText(c) != [] && Scan(st, WriteCommand(c) + rest) == Scan(Left(st, CommandText(c)), rest)
  {
    hide Scan, WriteCommand, CommandText, ProperCommand, Left;
    ScanCommand(st, c, rest);
    EmitWordIsBetween(st);
  }

  lemma EndedStarts(es: seq<Ended>, rest: string)
    requires forall i :: 0 <= i < |es| ==> ProperEnded(es[i])
    requires rest != "" ==> rest[0] != '&' && rest[0] != '|'
    ensures var s := WriteEnded(es) + rest; s != "" ==> s[0] != '&' && s[0] != '|'
  {
    hide WriteCommand, ProperCommand, IsGap, IsSeparator;
    if es == [] {
      assert WriteEnded(es) + rest == rest;
    } else {
      assert ProperEnded(es[0]);
      var tail := es[0].gap + (es[0].separator + (WriteEnded(es[1..]) + rest));
      CommandStarts(es[0].command, tail);
      EndedTail(es, rest);
    }
  }

  lemma EndedTail(es: seq<Ended>, rest: string)
    requires es != []
    ensures EndedText(es) == [CommandText(es[0].command)] + EndedText(es[1..])
    ensures WriteEnded(es) + rest ==
            WriteCommand(es[0].command) + (es[0].gap + (es[0].separator + (WriteEnded(es[1..]) + rest)))
  {
    hide WriteCommand, CommandText;
    Associates(WriteCommand(es[0].command), es[0].gap, es[0].separator, WriteEnded(es[1..]), rest);
  }

  lemma Associates(a: string, b: string, c: string, d: string, e: string)
    ensures a + b + c + d + e == a + (b + (c + (d + e)))
  {
  }

  /** Splitting gives back every command line that is written by these rules: bare bytes, backslashes, both kinds of
      quotes, gaps and separators, with a last command that ends in a gap, or without one. */
  lemma SplitUndoesWriting(es: seq<Ended>, last: seq<Spaced>, gap: string)
    requires (forall i :: 0 <= i < |es| ==> ProperEnded(es[i])) && (last == [] || ProperCommand(last)) && IsGap(gap)
    ensures Split(WriteEnded(es) + (WriteCommand(last) + gap)) ==
            EndedText(es) + if last == [] then [] else [CommandText(last)]
  {
    hide Scan, WriteEnded, EndedText, WriteCommand, CommandText, ProperCommand, ProperEnded, IsGap;
    var st := START.(commands := START.commands + EndedText(es));
    LastStarts(last, gap);
    ScanEnded(START, es, WriteCommand(last) + gap);
    assert gap + "" == gap;
    if last == [] {
      NoCommand(gap);
      ScanGap(st, gap, "");
      ScanEnd(if gap == "" then st else st.EmitWord(), "");
      assert [] + EndedText(es) + [] == EndedText(es) + [];
    } else {
      var ws := CommandText(last);
      ScanEndedCommand(st, last, gap);
      var pending := Left(st, ws);
      ScanGap(pending, gap, "");
      ScanEnd(if gap == "" then pending else pending.EmitWord(), "");
      PendingCommand(st, ws);
      assert [] + EndedText(es) + [ws] == EndedText(es) + [ws];
    }
  }

  lemma NoCommand(gap: string)
    ensures WriteCommand([]) + gap == gap
  {
  }

  lemma LastStarts(last: seq<Spaced>, gap: string)
    requires (last == [] || ProperCommand(last)) && IsGap(gap)
    ensures var s := WriteCommand(last) + gap; s != "" ==> s[0] != '&' && s[0] != '|'
  {
    hide ProperCommand;
    if last != [] {
      CommandStarts(last, gap);
    } else {
      NoCommand(gap);
      if gap != "" { assert IsGapByte(gap[0]); }
    }
  }

  // ----- Splitting undoes quoting -----

  /** A word inside single quotes: each ' leaves the quotes, is escaped, and enters them again. */
  function Escape(w: string): string {
    if w == "" then ""
    else (if w[0] == '\'' then "'\\''" else [w[0]]) + Escape(w[1..])
  }

  function Quote(w: string): string {
    "'" + Escape(w) + "'"
  }

  function QuoteCommand(ws: Words): string
    requires ws != []
  {
    if |ws| == 1 then Quote(ws[0]) else Quote(ws[0]) + " " + QuoteCommand(ws[1..])
  }

  /** Commands with a separator after each but the last. */
  function QuoteAll(cs: seq<Words>, seps: seq<string>): string
    requires |seps| + 1 == |cs| || cs == []
    requires forall i :: 0 <= i < |cs| ==> cs[i] != []
  {
    if cs == [] then ""
    else if |cs| == 1 then QuoteCommand(cs[0])
    else QuoteCommand(cs[0]) + seps[0] + QuoteAll(cs[1..], seps[1..])
  }

  /** The pieces of a quoted word: the run up to its first ', and what follows it. */
  function QuotePieces(run: string, w: string): Pieces
    decreases |w|
  {
    if w == "" then [Single(run)]
    else if w[0] == '\'' then [Single(run), Backslash('\'')] + QuotePieces("", w[1..])
    else QuotePieces(run + [w[0]], w[1..])
  }

  lemma {:induction false} QuotePiecesAre(run: string, w: string)
    requires '\'' !in run
    ensures ProperWord(QuotePieces(run, w)) && WordText(QuotePieces(run, w)) == run + w
    ensures WriteWord(QuotePieces(run, w)) == "'" + run + (Escape(w) + "'")
    decreases |w|
  {
    hide ProperWord, WordText, WriteWord;
    if w == "" {
      OnePiece(Single(run));
      assert "'" + run + "'" == "'" + run + ("" + "'");
      assert run + w == run;
    } else {
      hide Escape;
      EscapeStep(w);
      if w[0] == '\'' {
        QuotePiecesAre("", w[1..]);
        TwoPieces(Single(run), Backslash('\''), QuotePieces("", w[1..]));
        QuoteTexts(run, w, Escape(w[1..]));
      } else {
        QuotePiecesAre(run + [w[0]], w[1..]);
        RunTexts(run, w, Escape(w[1..]));
      }
    }
  }

  lemma EscapeStep(w: string)
    requires w != ""
    ensures Escape(w) == (if w[0] == '\'' then "'\\''" else [w[0]]) + Escape(w[1..])
  {
  }

  lemma QuoteTexts(run: string, w: string, escaped: string)
    requires w != "" && w[0] == '\''
    ensures run + (['\''] + ("" + w[1..])) == run + w
    ensures "'" + run + "'" + (['\\', '\''] + ("'" + "" + (escaped + "'"))) == "'" + run + ("'\\''" + escaped + "'")
  {
  }

  lemma RunTexts(run: string, w: string, escaped: string)
    requires w != ""
    ensures run + [w[0]] + w[1..] == run + w
    ensures "'" + (run + [w[0]]) + (escaped + "'") == "'" + run + ([w[0]] + escaped + "'")
  {
  }

  lemma OnePiece(p: Piece)
    requires ProperPiece(p)
    ensures ProperWord([p]) && WriteWord([p]) == WritePiece(p) && WordText([p]) == PieceText(p)
  {
    assert [p][1..] == [];
    assert WritePiece(p) + "" == WritePiece(p) && PieceText(p) + "" == PieceText(p);
  }

  lemma TwoPieces(p: Piece, q: Piece, w: Pieces)
    requires ProperPiece(p) && ProperPiece(q) && ProperWord(w)
    ensures ProperWord([p, q] + w)
    ensures WriteWord([p, q] + w) == WritePiece(p) + (WritePiece(q) + WriteWord(w))
    ensures WordText([p, q] + w) == PieceText(p) + (PieceText(q) + WordText(w))
  {
    assert ([p, q] + w)[1..] == [q] + w && ([q] + w)[1..] == w;
  }

  function Spacing(ws: Words, gap: string): seq<Spaced> {
    if ws == [] then [] else [Spaced(gap, QuotePieces("", ws[0]))] + Spacing(ws[1..], " ")
  }

  lemma {:induction false} SpacingIs(ws: Words, gap: string)
    requires ws != [] && (gap == "" || gap == " ")
    ensures ProperCommand(Spacing(ws, gap)) && CommandText(Spacing(ws, gap)) == ws
    ensures WriteCommand(Spacing(ws, gap)) == gap + QuoteCommand(ws)
    decreases |ws|
  {
    hide *;
    QuotedWord(ws[0]);
    NoGap();
    SpacingStep(ws, gap);
    if |ws| == 1 {
      assert ws[1..] == [] && ws == [ws[0]];
      OneSpaced(Spaced(gap, QuotePieces("", ws[0])));
      QuoteOne(ws);
    } else {
      SpacingIs(ws[1..], " ");
      SpacingStep(ws[1..], " ");
      MoreSpaced(Spaced(gap, QuotePieces("", ws[0])), Spacing(ws[1..], " "));
      QuoteMore(ws);
      assert [ws[0]] + ws[1..] == ws;
      assert gap + Quote(ws[0]) + (" " + QuoteCommand(ws[1..])) == gap + (Quote(ws[0]) + " " + QuoteCommand(ws[1..]));
    }
  }

  lemma SpacingStep(ws: Words, gap: string)
    requires ws != []
    ensures Spacing(ws, gap) == [Spaced(gap, QuotePieces("", ws[0]))] + Spacing(ws[1..], " ")
    ensures |ws| == 1 ==> Spacing(ws, gap) == [Spaced(gap, QuotePieces("", ws[0]))]
  {
  }

  lemma OneSpaced(x: Spaced)
    requires IsGap(x.gap) && ProperWord(x.word)
    ensures ProperCommand([x]) && CommandText([x]) == [WordText(x.word)] && WriteCommand([x]) == x.gap + WriteWord(x.word)
  {
    hide IsGap, ProperWord, WordText, WriteWord;
    assert [x][1..] == [];
    assert x.gap + WriteWord(x.word) + "" == x.gap + WriteWord(x.word);
  }

  lemma MoreSpaced(x: Spaced, c: seq<Spaced>)
    requires IsGap(x.gap) && ProperWord(x.word) && ProperCommand(c) && c[0].gap != ""
    ensures ProperCommand([x] + c) && CommandText([x] + c) == [WordText(x.word)] + CommandText(c)
    ensures WriteCommand([x] + c) == x.gap + WriteWord(x.word) + WriteCommand(c)
  {
    hide IsGap, ProperWord, WordText, WriteWord;
    assert ([x] + c)[1..] == c;
  }

  lemma QuoteOne(ws: Words)
    requires |ws| == 1
    ensures QuoteCommand(ws) == Quote(ws[0])
  {
  }

  lemma QuoteMore(ws: Words)
    requires |ws| > 1
    ensures QuoteCommand(ws) == Quote(ws[0]) + " " + QuoteCommand(ws[1..])
  {
    hide Quote;
  }

  lemma QuotedWord(w: string)
    ensures WriteWord(QuotePieces("", w)) == Quote(w) && WordText(QuotePieces("", w)) == w
    ensures ProperWord(QuotePieces("", w))
  {
    hide Escape;
    QuotePiecesAre("", w);
    assert "'" + "" + (Escape(w) + "'") == Quote(w);
    assert "" + w == w;
  }

  function Endings(cs: seq<Words>, seps: seq<string>): seq<Ended>
    requires |seps| + 1 == |cs|
  {
    if seps == [] then [] else [Ended(Spacing(cs[0], ""), "", seps[0])] + Endings(cs[1..], seps[1..])
  }

  lemma {:induction false} EndingsAre(cs: seq<Words>, seps: seq<string>)
    requires |seps| + 1 == |cs| && forall i :: 0 <= i < |cs| ==> cs[i] != []
    requires forall i :: 0 <= i < |seps| ==> IsSeparator(seps[i])
    ensures forall i :: 0 <= i < |Endings(cs, seps)| ==> ProperEnded(Endings(cs, seps)[i])
    ensures EndedText(Endings(cs, seps)) == cs[..|seps|]
    ensures WriteEnded(Endings(cs, seps)) + WriteCommand(Spacing(cs[|seps|], "")) == QuoteAll(cs, seps)
    decreases |cs|
  {
    hide *;
    SpacingIs(cs[0], "");
    assert "" + QuoteCommand(cs[0]) == QuoteCommand(cs[0]);
    if seps == [] {
      NoEndings(cs, seps);
      NothingEnded(WriteCommand(Spacing(cs[0], "")));
    } else {
      var e, rest, last := Ended(Spacing(cs[0], ""), "", seps[0]), Endings(cs[1..], seps[1..]), Spacing(cs[|seps|], "");
      EndingsAre(cs[1..], seps[1..]);
      assert cs[1..][|seps[1..]|] == cs[|seps|];
      EndingStep(cs, seps);
      EndingIsProper(e);
      EndedTail([e] + rest, WriteCommand(last));
      assert ([e] + rest)[1..] == rest;
      assert [cs[0]] + cs[1..][..|seps| - 1] == cs[..|seps|];
      EndingTexts(QuoteCommand(cs[0]), seps[0], WriteEnded(rest) + WriteCommand(last));
    }
  }

  lemma NoEndings(cs: seq<Words>, seps: seq<string>)
    requires |cs| == 1 && seps == [] && cs[0] != []
    ensures Endings(cs, seps) == [] && QuoteAll(cs, seps) == QuoteCommand(cs[0])
  {
  }

  lemma EndingStep(cs: seq<Words>, seps: seq<string>)
    requires |seps| + 1 == |cs| && seps != [] && forall i :: 0 <= i < |cs| ==> cs[i] != []
    ensures Endings(cs, seps) == [Ended(Spacing(cs[0], ""), "", seps[0])] + Endings(cs[1..], seps[1..])
    ensures QuoteAll(cs, seps) == QuoteCommand(cs[0]) + seps[0] + QuoteAll(cs[1..], seps[1..])
  {
    hide Spacing, QuoteCommand;
  }

  lemma EndingIsProper(e: Ended)
    requires ProperCommand(e.command) && e.gap == "" && IsSeparator(e.separator)
    ensures ProperEnded(e)
  {
    hide ProperCommand, IsSeparator;
  }

  lemma EndingTexts(a: string, b: string, c: string)
    ensures a + ("" + (b + c)) == a + b + c
  {
  }

  /** Splitting undoes quoting, for arbitrary words (empty ones included) and any mix of separators. */
  lemma SplitUndoesQuoting(cs: seq<Words>, seps: seq<string>)
    requires |seps| + 1 == |cs| || cs == []
    requires forall i :: 0 <= i < |cs| ==> cs[i] != []
    requires forall i :: 0 <= i < |seps| ==> IsSeparator(seps[i])
    ensures Split(QuoteAll(cs, seps)) == cs
  {
    if cs == [] {
      assert QuoteAll(cs, seps) == "";
    } else {
      SplitQuoted(cs, seps);
    }
  }

  lemma SplitQuoted(cs: seq<Words>, seps: seq<string>)
    requires |seps| + 1 == |cs| && forall i :: 0 <= i < |cs| ==> cs[i] != []
    requires forall i :: 0 <= i < |seps| ==> IsSeparator(seps[i])
    ensures Split(QuoteAll(cs, seps)) == cs
  {
    hide *;
    var last := Spacing(cs[|seps|], "");
    EndingsAre(cs, seps);
    SpacingIs(cs[|seps|], "");
    NotEmpty(cs[|seps|]);
    NoGap();
    SplitUndoesWriting(Endings(cs, seps), last, "");
    assert WriteCommand(last) + "" == WriteCommand(last);
    assert cs[..|seps|] + [cs[|seps|]] == cs;
  }

  lemma NoGap()
    ensures IsGap("") && IsGap(" ")
  {
  }

  lemma NotEmpty(ws: Words)
    requires ws != []
    ensures Spacing(ws, "") != []
  {
  }
}
