/** Cutting characters off the ends of a string (strings.TrimLeft, TrimRight, Trim and TrimSpace). */
module Trimming {

  function TrimLeft(cut: char -> bool, s: string): string {
    if s != "" && cut(s[0]) then TrimLeft(cut, s[1..]) else s
  }

  function TrimRight(cut: char -> bool, s: string): string {
    if s != "" && cut(s[|s| - 1]) then TrimRight(cut, s[..|s| - 1]) else s
  }

  function Trim(cut: char -> bool, s: string): string {
    TrimRight(cut, TrimLeft(cut, s))
  }

  predicate Trimmed(cut: char -> bool, s: string) {
    s != "" ==> !cut(s[0]) && !cut(s[|s| - 1])
  }

  predicate All(cut: char -> bool, s: string) {
    forall i :: 0 <= i < |s| ==> cut(s[i])
  }

  /** Trimming leaves exactly the trimmed strings alone, and shortens every other one. */
  lemma TrimLeaves(cut: char -> bool, s: string)
    ensures |Trim(cut, s)| <= |s|
    ensures Trim(cut, s) == s <==> Trimmed(cut, s)
    ensures |Trim(cut, s)| == |s| ==> Trim(cut, s) == s
    ensures Trimmed(cut, Trim(cut, s))
  {
    TrimLeftParts(cut, s);
    TrimRightParts(cut, TrimLeft(cut, s));
  }

  lemma {:induction false} TrimLeftParts(cut: char -> bool, s: string)
    ensures |TrimLeft(cut, s)| <= |s| && s[|s| - |TrimLeft(cut, s)|..] == TrimLeft(cut, s)
    ensures TrimLeft(cut, s) != "" ==> !cut(TrimLeft(cut, s)[0])
  {
    if s != "" && cut(s[0]) { TrimLeftParts(cut, s[1..]); }
  }

  lemma {:induction false} TrimRightParts(cut: char -> bool, s: string)
    ensures |TrimRight(cut, s)| <= |s| && s[..|TrimRight(cut, s)|] == TrimRight(cut, s)
    ensures TrimRight(cut, s) != "" ==> !cut(TrimRight(cut, s)[|TrimRight(cut, s)| - 1])
  {
    if s != "" && cut(s[|s| - 1]) { TrimRightParts(cut, s[..|s| - 1]); }
  }

  lemma {:induction false} TrimLeftPadding(cut: char -> bool, pad: string, s: string)
    requires All(cut, pad)
    ensures TrimLeft(cut, pad + s) == TrimLeft(cut, s)
  {
    if pad == "" {
      assert pad + s == s;
    } else {
      assert (pad + s)[1..] == pad[1..] + s;
      TrimLeftPadding(cut, pad[1..], s);
    }
  }

  lemma {:induction false} TrimRightPadding(cut: char -> bool, s: string, pad: string)
    requires All(cut, pad)
    ensures TrimRight(cut, s + pad) == TrimRight(cut, s)
  {
    if pad == "" {
      assert s + pad == s;
    } else {
      assert (s + pad)[..|s + pad| - 1] == s + pad[..|pad| - 1];
      TrimRightPadding(cut, s, pad[..|pad| - 1]);
    }
  }

  lemma {:induction false} TrimLeftAll(cut: char -> bool, s: string)
    requires All(cut, s)
    ensures TrimLeft(cut, s) == ""
  {
    if s != "" { TrimLeftAll(cut, s[1..]); }
  }

  lemma {:induction false} TrimLeftKeepsEnd(cut: char -> bool, s: string, pad: string)
    requires !All(cut, s)
    ensures TrimLeft(cut, s + pad) == TrimLeft(cut, s) + pad
  {
    assert (s + pad)[0] == s[0];
    if cut(s[0]) {
      assert (s + pad)[1..] == s[1..] + pad;
      assert !All(cut, s[1..]) by {
        var i :| 0 <= i < |s| && !cut(s[i]);
        assert !cut(s[1..][i - 1]);
      }
      TrimLeftKeepsEnd(cut, s[1..], pad);
    }
  }

  /** Padding on both sides does not matter. */
  lemma TrimPadded(cut: char -> bool, left: string, s: string, right: string)
    requires All(cut, left) && All(cut, right)
    ensures Trim(cut, left + s + right) == Trim(cut, s)
  {
    assert left + s + right == left + (s + right);
    TrimLeftPadding(cut, left, s + right);
    if All(cut, s) {
      assert All(cut, s + right);
      TrimLeftAll(cut, s);
      TrimLeftAll(cut, s + right);
    } else {
      TrimLeftKeepsEnd(cut, s, right);
      TrimRightPadding(cut, TrimLeft(cut, s), right);
    }
  }

  /** A character that is never cut off occurs as often as before. */
  lemma TrimKeepsCount(cut: char -> bool, s: string, c: char)
    requires !cut(c)
    ensures multiset(Trim(cut, s))[c] == multiset(s)[c]
  {
    TrimLeftKeepsCount(cut, s, c);
    TrimRightKeepsCount(cut, TrimLeft(cut, s), c);
  }

  lemma {:induction false} TrimLeftKeepsCount(cut: char -> bool, s: string, c: char)
    requires !cut(c)
    ensures multiset(TrimLeft(cut, s))[c] == multiset(s)[c]
  {
    if s != "" && cut(s[0]) {
      TrimLeftKeepsCount(cut, s[1..], c);
      assert s == [s[0]] + s[1..];
    }
  }

  lemma {:induction false} TrimRightKeepsCount(cut: char -> bool, s: string, c: char)
    requires !cut(c)
    ensures multiset(TrimRight(cut, s))[c] == multiset(s)[c]
  {
    if s != "" && cut(s[|s| - 1]) {
      TrimRightKeepsCount(cut, s[..|s| - 1], c);
      assert s == s[..|s| - 1] + [s[|s| - 1]];
    }
  }

  // ----- Sets of characters -----

  predicate IsQuote(c: char) {
    c == '"' || c == '\''
  }

  /** unicode.IsSpace */
  predicate IsSpace(c: char) {
    var n := c as int;
    || 9 <= n <= 13 || n == 32 || n == 0x85 || n == 0xA0 || n == 0x1680 || 0x2000 <= n <= 0x200a
    || n == 0x2028 || n == 0x2029 || n == 0x202f || n == 0x205f || n == 0x3000
  }

  function TrimSpace(s: string): string {
    Trim(IsSpace, s)
  }
}
