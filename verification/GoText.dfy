/**
The few operations of Go's `strings`, `bytes` and `strconv` packages that the modelled files call.
A `char` stands for one byte (or, in the modules that say so, for one rune); no result below
depends on how many values a `char` has.
*/
module GoText {

  /** True iff pat occurs in s starting at position i. */
  predicate OccursAt(s: string, pat: string, i: int) {
    0 <= i <= |s| - |pat| && s[i..i + |pat|] == pat
  }

  predicate HasPrefix(s: string, pat: string) {
    |pat| <= |s| && s[..|pat|] == pat
  }

  predicate HasSuffix(s: string, pat: string) {
    |pat| <= |s| && s[|s| - |pat|..] == pat
  }

  lemma DifferentFirst(s: string, t: string)
    requires s != "" && t != "" && s[0] != t[0]
    ensures !HasPrefix(s, t)
  {
    if |t| <= |s| { assert s[..|t|][0] == s[0]; }
  }

  /** Position of the first c in s, or -1. */
  function IndexByte(s: string, c: char): (i: int)
    ensures -1 <= i < |s|
    ensures i == -1 <==> c !in s
    ensures i >= 0 ==> s[i] == c
    ensures forall k :: 0 <= k < i ==> s[k] != c
  {
    if s == [] then -1
    else if s[0] == c then 0
    else
      var rest := IndexByte(s[1..], c);
      if rest == -1 then -1 else rest + 1
  }

  function LastIndexBefore(s: string, pat: string, n: nat): (i: int)
    ensures -1 <= i < n
    ensures i >= 0 ==> OccursAt(s, pat, i)
    ensures forall j :: i < j < n ==> !OccursAt(s, pat, j)
  {
    if n == 0 then -1
    else if OccursAt(s, pat, n - 1) then n - 1
    else LastIndexBefore(s, pat, n - 1)
  }

  /** Position of the last occurrence of pat in s, or -1. */
  function LastIndex(s: string, pat: string): (i: int)
    ensures i == -1 <==> forall j :: !OccursAt(s, pat, j)
    ensures i >= 0 ==> OccursAt(s, pat, i)
    ensures forall j :: i < j ==> !OccursAt(s, pat, j)
  {
    LastIndexBefore(s, pat, |s| + 1)
  }

  lemma IndexByteIs(s: string, c: char, i: nat)
    requires i < |s| && s[i] == c
    requires forall k :: 0 <= k < i ==> s[k] != c
    ensures IndexByte(s, c) == i
  {
    assert c in s;
  }

  /** The first c of a + b is the first c of a when a has one, else that of b. */
  lemma {:induction false} IndexByteConcat(a: string, b: string, c: char)
    ensures c in a ==> IndexByte(a + b, c) == IndexByte(a, c)
    ensures c !in a && c in b ==> IndexByte(a + b, c) == |a| + IndexByte(b, c)
  {
    if a == [] {
      assert a + b == b;
    } else {
      assert (a + b)[0] == a[0] && (a + b)[1..] == a[1..] + b;
      IndexByteConcat(a[1..], b, c);
    }
  }

  /** strconv's decimal rendering of a non-negative integer. */
  function Decimal(n: nat): (s: string)
    ensures |s| > 0
    ensures forall i :: 0 <= i < |s| ==> '0' <= s[i] <= '9'
  {
    var last := ('0' as int + n % 10) as char;
    if n < 10 then [last] else Decimal(n / 10) + [last]
  }

  lemma {:induction false} DecimalInjective(m: nat, n: nat)
    requires Decimal(m) == Decimal(n)
    ensures m == n
  {
    var s := Decimal(m);
    assert s[|s| - 1] == ('0' as int + m % 10) as char;
    assert s[|s| - 1] == ('0' as int + n % 10) as char;
    if m >= 10 {
      assert s[..|s| - 1] == Decimal(m / 10);
      if n >= 10 {
        assert s[..|s| - 1] == Decimal(n / 10);
        DecimalInjective(m / 10, n / 10);
      }
    }
  }

  /** fmt's %d. */
  function Itoa(n: int): (s: string)
    ensures |s| > 0
    ensures forall i :: 0 <= i < |s| ==> '0' <= s[i] <= '9' || s[i] == '-'
  {
    if n < 0 then "-" + Decimal(-n) else Decimal(n)
  }

  /** `^[a-z0-9][a-z0-9_-]{0,31}$`: account aliases and quota profile names. */
  predicate ShortName(s: string) {
    && 1 <= |s| <= 32
    && s[0] != '_' && s[0] != '-'
    && forall i :: 0 <= i < |s| ==> 'a' <= s[i] <= 'z' || '0' <= s[i] <= '9' || s[i] == '_' || s[i] == '-'
  }
}
