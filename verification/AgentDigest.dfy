/**
Definition.Hash (pkg/agentspec/fileset.go): the byte stream that is fed to SHA-256.  Names and contents are
written with their lengths in front, so the stream can be read back in one way only.
*/
module AgentDigest {
  import opened GoText
  import opened Digraph
  import opened Sorting
  import opened AgentFileSet

  /** A length-prefixed field. */
  function Field(s: string): string {
    Decimal(|s|) + ":" + s
  }

  /** `%d:%s:%d:` and the data. */
  function Entry(name: string, data: string): string {
    Decimal(|name|) + ":" + name + ":" + Field(data)
  }

  function StreamOf(names: seq<string>, files: Files): string
    requires forall n <- names :: n in files
  {
    if names == [] then ""
    else
      var n := names[|names| - 1];
      StreamOf(names[..|names| - 1], files) + Entry(n, files[n])
  }

  ghost function HashStream(files: Files): string {
    StringOrder();
    StreamOf(SortedList(StringLess, files.Keys), files)
  }

  method Hash(files: Files) returns (stream: string)
    ensures stream == HashStream(files)
  {
    hide Entry, Sorted, StringLess;
    StringOrder();
    var names := SortKeys(StringLess, files.Keys);
    stream := "";
    assert forall i :: 0 <= i < |names| ==> names[i] in Elems(names);
    for i := 0 to |names|
      invariant stream == StreamOf(names[..i], files)
    {
      StreamNext(names, files, i);
      stream := stream + Entry(names[i], files[names[i]]);
    }
    assert names[..|names|] == names;
  }

  lemma StreamNext(names: seq<string>, files: Files, i: nat)
    requires i < |names| && forall n <- names :: n in files
    ensures StreamOf(names[..i + 1], files) == StreamOf(names[..i], files) + Entry(names[i], files[names[i]])
  {
    assert names[..i + 1][..i] == names[..i];
  }

  // ----- Reading the stream back -----

  /** The same stream, entry by entry from the front. */
  function Entries(es: seq<(string, string)>): string {
    if es == [] then "" else Entry(es[0].0, es[0].1) + Entries(es[1..])
  }

  lemma DigitsBeforeColon(n: nat, s: string)
    ensures IndexByte(Decimal(n) + ":" + s, ':') == |Decimal(n)|
  {
    var d := Decimal(n);
    assert forall i :: 0 <= i < |d| ==> (d + ":" + s)[i] == d[i];
    IndexByteIs(d + ":" + s, ':', |d|);
  }

  /** A decimal length ends at the first colon. */
  lemma LengthPrefix(m: nat, s: string, n: nat, t: string)
    requires Decimal(m) + ":" + s == Decimal(n) + ":" + t
    ensures m == n && s == t
  {
    hide Decimal;
    var x, y := Decimal(m) + ":" + s, Decimal(n) + ":" + t;
    DigitsBeforeColon(m, s);
    DigitsBeforeColon(n, t);
    var k := |Decimal(m)|;
    assert Decimal(m) == x[..k] && Decimal(n) == y[..k];
    DecimalInjective(m, n);
    assert s == x[k + 1..] && t == y[k + 1..];
  }

  lemma FieldPrefix(a: string, s: string, b: string, t: string)
    requires Field(a) + s == Field(b) + t
    ensures a == b && s == t
  {
    hide Decimal;
    assert Field(a) + s == Decimal(|a|) + ":" + (a + s) && Field(b) + t == Decimal(|b|) + ":" + (b + t);
    LengthPrefix(|a|, a + s, |b|, b + t);
    assert a == (a + s)[..|a|] && b == (b + t)[..|b|] && s == (a + s)[|a|..] && t == (b + t)[|b|..];
  }

  /** An entry is determined by any stream it begins. */
  lemma EntryPrefix(a: string, x: string, s: string, b: string, y: string, t: string)
    requires Entry(a, x) + s == Entry(b, y) + t
    ensures a == b && x == y && s == t
  {
    hide Decimal;
    assert Entry(a, x) + s == Field(a) + (":" + (Field(x) + s));
    assert Entry(b, y) + t == Field(b) + (":" + (Field(y) + t));
    FieldPrefix(a, ":" + (Field(x) + s), b, ":" + (Field(y) + t));
    assert Field(x) + s == (":" + (Field(x) + s))[1..] && Field(y) + t == (":" + (Field(y) + t))[1..];
    FieldPrefix(x, s, y, t);
  }

  /** The stream is uniquely decodable. */
  lemma {:induction false} EntriesInjective(es: seq<(string, string)>, fs: seq<(string, string)>)
    requires Entries(es) == Entries(fs)
    ensures es == fs
  {
    if es == [] || fs == [] {
      EntriesNonEmpty(es);
      EntriesNonEmpty(fs);
    } else {
      EntryPrefix(es[0].0, es[0].1, Entries(es[1..]), fs[0].0, fs[0].1, Entries(fs[1..]));
      EntriesInjective(es[1..], fs[1..]);
      assert es == [es[0]] + es[1..] && fs == [fs[0]] + fs[1..];
    }
  }

  lemma EntriesNonEmpty(es: seq<(string, string)>)
    ensures es == [] <==> Entries(es) == ""
  {
    if es != [] { assert |Entry(es[0].0, es[0].1)| > 0; }
  }

  function Pairs(names: seq<string>, files: Files): (es: seq<(string, string)>)
    requires forall n <- names :: n in files
    ensures |es| == |names| && forall i :: 0 <= i < |es| ==> es[i] == (names[i], files[names[i]])
  {
    seq(|names|, i requires 0 <= i < |names| => (names[i], files[names[i]]))
  }

  lemma {:induction false} EntriesNext(es: seq<(string, string)>, e: (string, string))
    ensures Entries(es + [e]) == Entries(es) + Entry(e.0, e.1)
  {
    hide Entry;
    if es == [] {
      assert [] + [e] == [e] && [e][1..] == [];
      assert Entries([e]) == Entry(e.0, e.1) + "";
    } else {
      assert (es + [e])[1..] == es[1..] + [e];
      EntriesNext(es[1..], e);
    }
  }

  lemma {:induction false} StreamIsEntries(names: seq<string>, files: Files)
    requires forall n <- names :: n in files
    ensures StreamOf(names, files) == Entries(Pairs(names, files))
  {
    if names != [] {
      hide Entry;
      var n := |names| - 1;
      StreamIsEntries(names[..n], files);
      EntriesNext(Pairs(names[..n], files), (names[n], files[names[n]]));
      assert Pairs(names, files) == Pairs(names[..n], files) + [(names[n], files[names[n]])];
    }
  }

  /** Two agents feed the digest the same bytes if and only if they have the same files. */
  lemma HashStreamInjective(f: Files, g: Files)
    ensures HashStream(f) == HashStream(g) <==> f == g
  {
    StringOrder();
    var ns, ms := SortedList(StringLess, f.Keys), SortedList(StringLess, g.Keys);
    if HashStream(f) == HashStream(g) {
      StreamIsEntries(ns, f);
      StreamIsEntries(ms, g);
      EntriesInjective(Pairs(ns, f), Pairs(ms, g));
      SamePairs(ns, f, ms, g);
    }
  }

  lemma SamePairs(ns: seq<string>, f: Files, ms: seq<string>, g: Files)
    requires Elems(ns) == f.Keys && Elems(ms) == g.Keys
    requires Pairs(ns, f) == Pairs(ms, g)
    ensures f == g
  {
    assert |ns| == |ms|;
    forall i | 0 <= i < |ns| ensures ns[i] == ms[i] && f[ns[i]] == g[ms[i]] {
      assert Pairs(ns, f)[i] == Pairs(ms, g)[i];
    }
    assert ns == ms;
    forall n <- f ensures f[n] == g[n] {
      assert n in Elems(ns);
      var i :| 0 <= i < |ns| && ns[i] == n;
    }
  }

  // ----- What is materialized -----

  datatype OnDisk = OnDisk(data: string, executable: bool)

  /** The directory written for an agent: a script keeps its executable bit by its first two bytes. */
  function Materialized(files: Files): map<string, OnDisk> {
    map name | name in files :: OnDisk(files[name], HasPrefix(files[name], "#!"))
  }

  /** Equal streams mean an identical directory, and different directories never share a stream. */
  lemma SameStreamSameDirectory(f: Files, g: Files)
    ensures HashStream(f) == HashStream(g) <==> Materialized(f) == Materialized(g)
  {
    HashStreamInjective(f, g);
    if Materialized(f) == Materialized(g) {
      assert Materialized(f).Keys == f.Keys && Materialized(g).Keys == g.Keys;
      forall n <- f ensures f[n] == g[n] {
        assert Materialized(f)[n] == Materialized(g)[n];
      }
    }
  }

  /** Every file is written, with its contents; it is executable exactly when it starts with #!. */
  lemma MaterializedIs(files: Files, name: string)
    ensures name in Materialized(files) <==> name in files
    ensures name in files ==> Materialized(files)[name].data == files[name]
    ensures name in files ==>
              (Materialized(files)[name].executable <==>
               |files[name]| >= 2 && files[name][0] == '#' && files[name][1] == '!')
  {
    if name in files && |files[name]| >= 2 {
      assert files[name][..2] == [files[name][0], files[name][1]];
    }
  }
}
