/**
Go's double-quoted strings (strconv.Quote and fmt's %q).  A char is one rune; which runes above ASCII are printable
is a parameter.
*/
module Quoting {
  import opened Wrappers

  predicate IsPrint(printable: char -> bool, c: char) {
    var n := c as int;
    if n < 0x80 then 0x20 <= n < 0x7f else printable(c)
  }

  /** c stands for itself between the quotes. */
  predicate Plain(printable: char -> bool, c: char) {
    IsPrint(printable, c) && c != '"' && c != '\\'
  }

  predicate AllPlain(printable: char -> bool, s: string) {
    forall i :: 0 <= i < |s| ==> Plain(printable, s[i])
  }

  function HexDigit(d: nat): (c: char)
    requires d < 16
    ensures '0' <= c <= '9' || 'a' <= c <= 'f'
  {
    (if d < 10 then '0' as int + d else 'a' as int + d - 10) as char
  }

  function Hex(n: nat, width: nat): (s: string)
    ensures |s| == width
    ensures forall i :: 0 <= i < |s| ==> '0' <= s[i] <= '9' || 'a' <= s[i] <= 'f'
  {
    if width == 0 then "" else Hex(n / 16, width - 1) + [HexDigit(n % 16)]
  }

  /** What follows the backslash for a rune that is not printable. */
  function EscapeTail(c: char): (s: string)
    ensures s != "" && '\n' !in s
  {
    match c as int
    case 7 => "a"
    case 8 => "b"
    case 9 => "t"
    case 10 => "n"
    case 11 => "v"
    case 12 => "f"
    case 13 => "r"
    case n =>
      if n < 0x20 || n == 0x7f then "x" + Hex(n, 2)
      else if n < 0x10000 then "u" + Hex(n, 4)
      else "U" + Hex(n, 8)
  }

  function Escape(printable: char -> bool, c: char): string {
    if Plain(printable, c) then [c]
    else if c == '"' || c == '\\' then ['\\', c]
    else "\\" + EscapeTail(c)
  }

  function Escapes(printable: char -> bool, s: string): string {
    if s == "" then "" else Escape(printable, s[0]) + Escapes(printable, s[1..])
  }

  function Quote(printable: char -> bool, s: string): string {
    "\"" + Escapes(printable, s) + "\""
  }

  lemma EscapeFacts(printable: char -> bool, c: char)
    ensures '\n' !in Escape(printable, c)
    ensures multiset(Escape(printable, c))['\\'] >= multiset([c])['\\']
    ensures !Plain(printable, c) ==> multiset(Escape(printable, c))['\\'] > multiset([c])['\\']
  {
    hide EscapeTail;
  }

  /** A quoted string is one line. */
  lemma {:induction false} EscapesOneLine(printable: char -> bool, s: string)
    ensures '\n' !in Escapes(printable, s)
  {
    if s != "" {
      hide Escape;
      EscapeFacts(printable, s[0]);
      EscapesOneLine(printable, s[1..]);
    }
  }

  /** Escaping leaves exactly the plain strings alone. */
  lemma {:induction false} PlainIsKept(printable: char -> bool, s: string)
    requires AllPlain(printable, s)
    ensures Escapes(printable, s) == s
  {
    if s != "" {
      PlainIsKept(printable, s[1..]);
      assert s == [s[0]] + s[1..];
    }
  }

  /** Every escape adds a backslash. */
  lemma {:induction false} EscapesAddBackslashes(printable: char -> bool, s: string)
    ensures multiset(Escapes(printable, s))['\\'] >= multiset(s)['\\']
    ensures !AllPlain(printable, s) ==> multiset(Escapes(printable, s))['\\'] > multiset(s)['\\']
  {
    hide *;
    if s == "" {
      NothingEscaped(printable);
    } else {
      EscapeFacts(printable, s[0]);
      EscapesAddBackslashes(printable, s[1..]);
      CountStep(printable, s);
      AllPlainSplit(printable, s);
    }
  }

  lemma NothingEscaped(printable: char -> bool)
    ensures Escapes(printable, "") == "" && AllPlain(printable, "")
  {
  }

  lemma CountStep(printable: char -> bool, s: string)
    requires s != ""
    ensures multiset(Escapes(printable, s))['\\'] ==
            multiset(Escape(printable, s[0]))['\\'] + multiset(Escapes(printable, s[1..]))['\\']
    ensures multiset(s)['\\'] == multiset([s[0]])['\\'] + multiset(s[1..])['\\']
  {
    hide Escape;
    assert s == [s[0]] + s[1..];
  }

  lemma AllPlainSplit(printable: char -> bool, s: string)
    requires s != ""
    ensures AllPlain(printable, s) <==> Plain(printable, s[0]) && AllPlain(printable, s[1..])
  {
    hide Plain;
    if Plain(printable, s[0]) && AllPlain(printable, s[1..]) {
      assert forall i :: 1 <= i < |s| ==> s[i] == s[1..][i - 1];
    }
  }

  // ----- Reading a quoted string -----

  function HexValue(c: char): Option<nat> {
    if '0' <= c <= '9' then Some(c as int - '0' as int)
    else if 'a' <= c <= 'f' then Some(c as int - 'a' as int + 10)
    else None
  }

  function Unhex(s: string): Option<nat> {
    if s == "" then Some(0)
    else
      var most, last := Unhex(s[..|s| - 1]), HexValue(s[|s| - 1]);
      if most.Some? && last.Some? then Some(most.value * 16 + last.value) else None
  }

  predicate IsScalar(n: nat) {
    n < 0xD800 || 0xE000 <= n < 0x110000
  }

  /** The rune that width hex digits name, and what follows them. */
  function ReadHex(s: string, width: nat): (r: Option<(char, string)>)
    ensures r.Some? ==> |r.value.1| <= |s|
  {
    if |s| < width then None
    else
      var n := Unhex(s[..width]);
      if n.Some? && IsScalar(n.value) then Some((n.value as char, s[width..])) else None
  }

  /** The rune that the text behind a backslash stands for, and what follows it. */
  function ReadEscape(s: string): (r: Option<(char, string)>)
    ensures r.Some? ==> |r.value.1| < |s|
  {
    if s == "" then None
    else
      var c, rest := s[0], s[1..];
      if c == '"' || c == '\\' then Some((c, rest))
      else if c == 'a' then Some((7 as char, rest))
      else if c == 'b' then Some((8 as char, rest))
      else if c == 't' then Some((9 as char, rest))
      else if c == 'n' then Some((10 as char, rest))
      else if c == 'v' then Some((11 as char, rest))
      else if c == 'f' then Some((12 as char, rest))
      else if c == 'r' then Some((13 as char, rest))
      else if c == 'x' then ReadHex(rest, 2)
      else if c == 'u' then ReadHex(rest, 4)
      else if c == 'U' then ReadHex(rest, 8)
      else None
  }

  /** The text up to the closing quote, escapes resolved, and what follows the quote. */
  function ReadChars(s: string): (r: Option<(string, string)>)
    ensures r.Some? ==> |r.value.1| < |s|
    decreases |s|
  {
    if s == "" then None
    else if s[0] == '"' then Some(("", s[1..]))
    else
      var first := if s[0] == '\\' then ReadEscape(s[1..]) else Some((s[0], s[1..]));
      if first.None? then None
      else
        var more := ReadChars(first.value.1);
        if more.None? then None else Some(([first.value.0] + more.value.0, more.value.1))
  }

  /** A double-quoted string in front of a text. */
  function ReadQuoted(s: string): (r: Option<(string, string)>)
    ensures r.Some? ==> |r.value.1| < |s|
  {
    if s == "" || s[0] != '"' then None else ReadChars(s[1..])
  }

  function Power16(width: nat): nat {
    if width == 0 then 1 else 16 * Power16(width - 1)
  }

  lemma {:induction false} UnhexHex(n: nat, width: nat)
    requires n < Power16(width)
    ensures Unhex(Hex(n, width)) == Some(n)
    decreases width
  {
    if width > 0 {
      var s := Hex(n, width);
      UnhexHex(n / 16, width - 1);
      assert s[..|s| - 1] == Hex(n / 16, width - 1) && s[|s| - 1] == HexDigit(n % 16);
      assert n == n / 16 * 16 + n % 16;
    }
  }

  lemma Powers()
    ensures Power16(2) == 0x100 && Power16(4) == 0x10000 && Power16(8) == 0x1_0000_0000
  {
    assert Power16(1) == 16;
    assert Power16(3) == 0x1000;
    assert Power16(5) == 0x10_0000;
    assert Power16(6) == 0x100_0000;
    assert Power16(7) == 0x1000_0000;
  }

  lemma ReadHexOf(c: char, width: nat, rest: string)
    requires c as int < Power16(width)
    ensures ReadHex(Hex(c as int, width) + rest, width) == Some((c, rest))
  {
    hide Hex, Unhex, Power16;
    UnhexHex(c as int, width);
    var s := Hex(c as int, width) + rest;
    assert s[..width] == Hex(c as int, width) && s[width..] == rest;
  }

  /** Reading what is written behind a backslash gives the rune back. */
  lemma ReadEscapeOf(c: char, rest: string)
    requires c as int < 0x80 ==> c as int < 0x20 || c as int == 0x7f
    ensures ReadEscape(EscapeTail(c) + rest) == Some((c, rest))
  {
    hide Hex, Unhex, Power16, ReadHex;
    var n := c as int;
    Powers();
    var tail := EscapeTail(c);
    assert (tail + rest)[0] == tail[0] && (tail + rest)[1..] == tail[1..] + rest;
    if 7 <= n <= 13 {
      assert tail[1..] + rest == rest;
    } else if n < 0x20 || n == 0x7f {
      assert tail[1..] == Hex(n, 2);
      ReadHexOf(c, 2, rest);
    } else if n < 0x10000 {
      assert tail[1..] == Hex(n, 4);
      ReadHexOf(c, 4, rest);
    } else {
      assert tail[1..] == Hex(n, 8);
      ReadHexOf(c, 8, rest);
    }
  }

  lemma ReadOne(printable: char -> bool, c: char, rest: string)
    ensures ReadChars(Escape(printable, c) + rest) ==
            if ReadChars(rest).None? then None
            else Some(([c] + ReadChars(rest).value.0, ReadChars(rest).value.1))
  {
    hide ReadEscape, EscapeTail;
    var s := Escape(printable, c) + rest;
    if Plain(printable, c) {
      assert s[1..] == rest;
    } else if c == '"' || c == '\\' {
      assert s[1..] == [c] + rest;
      ReadEscapedQuote(c, rest);
    } else {
      assert s[1..] == EscapeTail(c) + rest;
      ReadEscapeOf(c, rest);
    }
  }

  lemma ReadEscapedQuote(c: char, rest: string)
    requires c == '"' || c == '\\'
    ensures ReadEscape([c] + rest) == Some((c, rest))
  {
    assert ([c] + rest)[1..] == rest;
  }

  lemma {:induction false} ReadEscapes(printable: char -> bool, s: string, rest: string)
    ensures ReadChars(Escapes(printable, s) + ("\"" + rest)) == Some((s, rest))
  {
    hide *;
    if s == "" {
      ReadEnd(printable, rest);
    } else {
      var tail := Escapes(printable, s[1..]) + ("\"" + rest);
      ReadEscapes(printable, s[1..], rest);
      ReadOne(printable, s[0], tail);
      EscapesStep(printable, s, "\"" + rest);
      assert [s[0]] + s[1..] == s;
    }
  }

  lemma ReadEnd(printable: char -> bool, rest: string)
    ensures ReadChars(Escapes(printable, "") + ("\"" + rest)) == Some(("", rest))
  {
    assert Escapes(printable, "") + ("\"" + rest) == "\"" + rest;
    assert ("\"" + rest)[1..] == rest;
  }

  lemma EscapesStep(printable: char -> bool, s: string, rest: string)
    requires s != ""
    ensures Escapes(printable, s) + rest == Escape(printable, s[0]) + (Escapes(printable, s[1..]) + rest)
  {
    hide Escape;
  }

  /** A quoted string reads back as itself, whatever runes it contains and whatever follows it. */
  lemma ReadUndoesQuote(printable: char -> bool, s: string, rest: string)
    ensures ReadQuoted(Quote(printable, s) + rest) == Some((s, rest))
  {
    hide ReadChars, Escapes;
    ReadEscapes(printable, s, rest);
    assert (Quote(printable, s) + rest)[1..] == Escapes(printable, s) + ("\"" + rest);
  }
}
