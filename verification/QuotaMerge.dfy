/**
Adding quota profiles to an aw config text (cmd/asgard-init/quota.go).  A char is one rune.  Ratios are the text that
formatRatio gives, and the comment above a new section is a parameter.
*/
module QuotaMerge {
  import opened Wrappers
  import opened GoText
  import opened Lines
  import opened Trimming
  import opened Quoting

  datatype Profile = Profile(name: string, unlimited: bool, thresholds: seq<(string, string)>)

  const SECTION := "quota_profiles:"

  // ----- The two regular expressions -----

  /** \s */
  predicate IsReSpace(c: char) {
    c == ' ' || c == '\t' || c == '\n' || c == '\r' || c as int == 12
  }

  /** ^quota_profiles:\s*(#.*)?$ on one line. */
  predicate IsSection(line: string) {
    HasPrefix(line, SECTION) &&
    var rest := TrimLeft(IsReSpace, line[|SECTION|..]);
    rest == "" || rest[0] == '#'
  }

  /** :(\s|$) */
  predicate EndsKey(rest: string) {
    rest != "" && rest[0] == ':' && (|rest| == 1 || IsReSpace(rest[1]))
  }

  /** A key between two quotes q, quotes included. */
  function QuotedKey(q: char, text: string): Option<string> {
    if text == "" || text[0] != q then None
    else
      var i := IndexByte(text[1..], q);
      if i == -1 || !EndsKey(text[i + 2..]) then None else Some(text[..i + 2])
  }

  function BareLength(text: string): (n: nat)
    ensures n <= |text|
  {
    if text == "" || IsReSpace(text[0]) || text[0] == ':' then 0 else 1 + BareLength(text[1..])
  }

  function BareKey(text: string): Option<string> {
    var n := BareLength(text);
    if n == 0 || !EndsKey(text[n..]) then None else Some(text[..n])
  }

  /** The first group of ^("[^"]*"|'[^']*'|[^\s:]+):(\s|$), the alternatives tried in order. */
  function EntryKey(text: string): Option<string> {
    var double := QuotedKey('"', text);
    if double.Some? then double
    else
      var single := QuotedKey('\'', text);
      if single.Some? then single else BareKey(text)
  }

  // ----- Reading the section -----

  datatype Header = Absent | Inline | At(index: nat)

  /** The first line with the section's key decides. */
  function FindHeader(lines: seq<string>, i: nat): (h: Header)
    requires i <= |lines|
    ensures h.At? ==> i <= h.index < |lines| && IsSection(lines[h.index])
    decreases |lines| - i
  {
    if i == |lines| then Absent
    else if IsSection(lines[i]) then At(i)
    else if HasPrefix(lines[i], SECTION) then Inline
    else FindHeader(lines, i + 1)
  }

  predicate IsBlank(c: char) {
    c == ' ' || c == '\t'
  }

  /** The entries' indentation, once known, and the names defined. */
  datatype Section = Section(indent: Option<string>, have: set<string>)

  const NOTHING := Section(None, {})

  function Lead(line: string): string {
    TrimLeftParts(IsBlank, line);
    line[..|line| - |TrimLeft(IsBlank, line)|]
  }

  predicate Skipped(line: string) {
    var trimmed := TrimSpace(line);
    trimmed == "" || trimmed[0] == '#'
  }

  /** The next top-level key. */
  predicate Ends(line: string) {
    !Skipped(line) && Lead(line) == ""
  }

  function ReadLine(st: Section, line: string): Section {
    if Skipped(line) then st
    else
      var indent := if st.indent.None? then Lead(line) else st.indent.value;
      var key := EntryKey(TrimSpace(line));
      if Lead(line) == indent && key.Some? then Section(Some(indent), st.have + {Trim(IsQuote, key.value)})
      else Section(Some(indent), st.have)
  }

  function Scan(lines: seq<string>, st: Section): Section
    decreases |lines|
  {
    if lines == [] || Ends(lines[0]) then st else Scan(lines[1..], ReadLine(st, lines[0]))
  }

  /** The names that a config text defines. */
  function Defined(text: string): set<string> {
    match FindHeader(Split(text), 0)
    case At(h) => Scan(Split(text)[h + 1..], NOTHING).have
    case _ => {}
  }

  // ----- Writing entries -----

  function Part(printable: char -> bool, t: (string, string)): string {
    Quote(printable, t.0) + ": " + t.1
  }

  function Parts(printable: char -> bool, ts: seq<(string, string)>): string {
    if ts == [] then ""
    else if |ts| == 1 then Part(printable, ts[0])
    else Part(printable, ts[0]) + ", " + Parts(printable, ts[1..])
  }

  function Fields(printable: char -> bool, p: Profile): string {
    if p.unlimited then "unlimited: true" else "thresholds: { " + Parts(printable, p.thresholds) + " }"
  }

  function NameLine(printable: char -> bool, name: string): string {
    Quote(printable, name) + ":"
  }

  function EntryLines(printable: char -> bool, indent: string, p: Profile): seq<string> {
    [indent + NameLine(printable, p.name), indent + indent + Fields(printable, p)]
  }

  function AllEntries(printable: char -> bool, indent: string, ps: seq<Profile>): seq<string> {
    if ps == [] then [] else AllEntries(printable, indent, ps[..|ps| - 1]) + EntryLines(printable, indent, ps[|ps| - 1])
  }

  function Names(ps: seq<Profile>): seq<string> {
    if ps == [] then [] else Names(ps[..|ps| - 1]) + [ps[|ps| - 1].name]
  }

  function Missing(ps: seq<Profile>, have: set<string>): seq<Profile> {
    if ps == [] then []
    else
      var p := ps[|ps| - 1];
      Missing(ps[..|ps| - 1], have) + if p.name in have then [] else [p]
  }

  function Present(ps: seq<Profile>, have: set<string>): seq<string> {
    if ps == [] then []
    else
      var p := ps[|ps| - 1];
      Present(ps[..|ps| - 1], have) + if p.name in have then [p.name] else []
  }

  // ----- The merge -----

  datatype Merged = Merged(updated: string, added: seq<string>, skipped: seq<string>)

  predicate IsNewline(c: char) {
    c == '\n'
  }

  function Read(lines: seq<string>): Section {
    match FindHeader(lines, 0)
    case At(h) => Scan(lines[h + 1..], NOTHING)
    case _ => NOTHING
  }

  function IndentOf(st: Section): string {
    if st.indent.None? then "  " else st.indent.value
  }

  function InsertEntries(existing: string, entries: seq<string>, comment: seq<string>): string {
    var lines := Split(existing);
    match FindHeader(lines, 0)
    case At(h) => Join(lines[..h + 1] + entries + lines[h + 1..])
    case _ =>
      TrimRight(IsNewline, existing) + "\n\n" + Join(comment) + "\n" + SECTION + "\n" + Join(entries) + "\n"
  }

  function Merge(printable: char -> bool, comment: seq<string>, existing: string, ps: seq<Profile>): Result<Merged, string> {
    var lines := Split(existing);
    if FindHeader(lines, 0).Inline? then Failure(SECTION)
    else
      var st := Read(lines);
      var added := Missing(ps, st.have);
      if added == [] then Success(Merged(existing, [], Present(ps, st.have)))
      else
        var entries := AllEntries(printable, IndentOf(st), added);
        Success(Merged(InsertEntries(existing, entries, comment), Names(added), Present(ps, st.have)))
  }

  method FindHeaderLine(lines: seq<string>) returns (h: Header)
    ensures h == FindHeader(lines, 0)
  {
    for i := 0 to |lines|
      invariant FindHeader(lines, 0) == FindHeader(lines, i)
    {
      if IsSection(lines[i]) { return At(i); }
      if HasPrefix(lines[i], SECTION) { return Inline; }
    }
    return Absent;
  }

  method ScanSection(lines: seq<string>) returns (indent: string, have: set<string>)
    ensures indent == IndentOf(Scan(lines, NOTHING)) && have == Scan(lines, NOTHING).have
  {
    hide EntryKey, Skipped, Lead, Trim;
    indent, have := "  ", {};
    var first := true;
    assert lines[0..] == lines;
    for i := 0 to |lines|
      invariant first ==> indent == "  "
      invariant Scan(lines, NOTHING) == Scan(lines[i..], Section(if first then None else Some(indent), have))
    {
      assert lines[i..][0] == lines[i] && lines[i..][1..] == lines[i + 1..];
      var l := lines[i];
      if !Skipped(l) {
        var lead := Lead(l);
        if lead == "" { return; }
        if first {
          indent, first := lead, false;
        }
        if lead == indent {
          var key := EntryKey(TrimSpace(l));
          if key.Some? {
            have := have + {Trim(IsQuote, key.value)};
          }
        }
      }
    }
  }

  /** The loop over the profiles. */
  method SelectProfiles(printable: char -> bool, indent: string, have: set<string>, ps: seq<Profile>)
    returns (added: seq<string>, skipped: seq<string>, entries: seq<string>)
    ensures added == Names(Missing(ps, have)) && skipped == Present(ps, have)
    ensures entries == AllEntries(printable, indent, Missing(ps, have))
  {
    hide *;
    added, skipped, entries := [], [], [];
    NoneSelected(printable, indent, have);
    for i := 0 to |ps|
      invariant added == Names(Missing(ps[..i], have)) && skipped == Present(ps[..i], have)
      invariant entries == AllEntries(printable, indent, Missing(ps[..i], have))
    {
      var p := ps[i];
      SelectStep(ps, have, i);
      if p.name in have {
        skipped := skipped + [p.name];
      } else {
        MissingSnoc(printable, indent, Missing(ps[..i], have), p);
        added := added + [p.name];
        entries := entries + EntryLines(printable, indent, p);
      }
    }
    assert ps[..|ps|] == ps;
  }

  lemma NoneSelected(printable: char -> bool, indent: string, have: set<string>)
    ensures Missing([], have) == [] && Present([], have) == [] && Names([]) == []
    ensures AllEntries(printable, indent, []) == []
  {
  }

  lemma SelectStep(ps: seq<Profile>, have: set<string>, i: nat)
    requires i < |ps|
    ensures ps[i].name in have ==> Missing(ps[..i + 1], have) == Missing(ps[..i], have)
                                   && Present(ps[..i + 1], have) == Present(ps[..i], have) + [ps[i].name]
    ensures ps[i].name !in have ==> Missing(ps[..i + 1], have) == Missing(ps[..i], have) + [ps[i]]
                                    && Present(ps[..i + 1], have) == Present(ps[..i], have)
  {
    assert ps[..i + 1][..i] == ps[..i];
  }

  method MergeQuotaProfiles(printable: char -> bool, comment: seq<string>, existing: string, ps: seq<Profile>)
    returns (r: Result<Merged, string>)
    ensures r == Merge(printable, comment, existing, ps)
  {
    hide Split, FindHeader, Scan, AllEntries, Missing, Present, Names, InsertEntries;
    var lines := Split(existing);
    var h := FindHeaderLine(lines);
    if h.Inline? { return Failure(SECTION); }
    var indent := "  ";
    var have: set<string> := {};
    if h.At? {
      indent, have := ScanSection(lines[h.index + 1..]);
    }
    var added, skipped, entries := SelectProfiles(printable, indent, have, ps);
    NamesNone(Missing(ps, have));
    if added == [] { return Success(Merged(existing, [], skipped)); }
    return Success(Merged(InsertEntries(existing, entries, comment), added, skipped));
  }

  lemma MissingSnoc(printable: char -> bool, indent: string, ps: seq<Profile>, p: Profile)
    ensures Names(ps + [p]) == Names(ps) + [p.name]
    ensures AllEntries(printable, indent, ps + [p]) == AllEntries(printable, indent, ps) + EntryLines(printable, indent, p)
  {
    hide EntryLines;
    assert (ps + [p])[..|ps|] == ps;
  }

  lemma NamesNone(ps: seq<Profile>)
    ensures Names(ps) == [] <==> ps == []
  {
  }

  // ----- A written entry is read back -----

  predicate ValidProfile(p: Profile) {
    ShortName(p.name) && forall i :: 0 <= i < |p.thresholds| ==> '\n' !in p.thresholds[i].1
  }

  predicate ValidProfiles(ps: seq<Profile>) {
    forall i :: 0 <= i < |ps| ==> ValidProfile(ps[i])
  }

  /** An indentation: at least one space or tab. */
  predicate IsIndent(s: string) {
    s != "" && All(IsBlank, s)
  }

  lemma ShortNameIsPlain(printable: char -> bool, name: string)
    requires ShortName(name)
    ensures Escapes(printable, name) == name && '"' !in name && Trimmed(IsQuote, name)
  {
    assert AllPlain(printable, name);
    PlainIsKept(printable, name);
  }

  /** The key of a name line is the quoted name. */
  lemma NameLineKey(printable: char -> bool, name: string)
    requires ShortName(name)
    ensures EntryKey(NameLine(printable, name)) == Some("\"" + name + "\"")
    ensures Trim(IsQuote, "\"" + name + "\"") == name
  {
    hide ShortName, Escapes, Trim, Trimmed, BareKey;
    ShortNameIsPlain(printable, name);
    var text := NameLine(printable, name);
    assert text == "\"" + (name + "\":");
    assert text[1..] == name + "\":";
    IndexByteConcat(name, "\":", '"');
    assert text[..|name| + 2] == "\"" + name + "\"";
    assert text[|name| + 2..] == ":";
    TrimPadded(IsQuote, "\"", name, "\"");
    TrimLeaves(IsQuote, name);
  }

  /** An indented text that starts and ends with visible characters: what TrimSpace and Lead see of it. */
  lemma IndentedLine(indent: string, text: string)
    requires All(IsBlank, indent) && text != "" && Trimmed(IsSpace, text)
    ensures TrimSpace(indent + text) == text && Lead(indent + text) == indent
  {
    assert !IsBlank(text[0]);
    assert All(IsSpace, indent);
    hide IsSpace, Trim;
    assert indent + text + "" == indent + text;
    TrimPadded(IsSpace, indent, text, "");
    TrimLeaves(IsSpace, text);
    TrimLeftPadding(IsBlank, indent, text);
    assert (indent + text)[..|indent|] == indent;
  }

  lemma FieldsShape(printable: char -> bool, p: Profile)
    ensures var f := Fields(printable, p); f != "" && Trimmed(IsSpace, f) && f[0] != '#'
  {
    hide Parts;
  }

  /** Reading the line with a profile's name. */
  lemma ReadNameLine(printable: char -> bool, indent: string, name: string, st: Section)
    requires IsIndent(indent) && ShortName(name) && (st.indent.None? || st.indent == Some(indent))
    ensures !Ends(indent + NameLine(printable, name))
    ensures ReadLine(st, indent + NameLine(printable, name)) == Section(Some(indent), st.have + {name})
  {
    hide ShortName, Escapes, Trim, EntryKey;
    IndentedLine(indent, NameLine(printable, name));
    NameLineKey(printable, name);
  }

  /** The line below it is deeper, so it defines nothing. */
  lemma ReadFieldsLine(printable: char -> bool, indent: string, p: Profile, have: set<string>)
    requires IsIndent(indent)
    ensures !Ends(indent + indent + Fields(printable, p))
    ensures ReadLine(Section(Some(indent), have), indent + indent + Fields(printable, p)) == Section(Some(indent), have)
  {
    hide Fields, Trim, EntryKey, IsSpace;
    FieldsShape(printable, p);
    assert |indent + indent| > |indent|;
    IndentedLine(indent + indent, Fields(printable, p));
  }

  function NameSet(ps: seq<Profile>): set<string> {
    if ps == [] then {} else NameSet(ps[..|ps| - 1]) + {ps[|ps| - 1].name}
  }

  function After(indent: string, st: Section, ps: seq<Profile>): Section {
    if ps == [] then st else Section(Some(indent), st.have + NameSet(ps))
  }

  /** Lines that do not end the section, and the state after them. */
  predicate Passes(lines: seq<string>, st: Section, st': Section)
    decreases |lines|
  {
    if lines == [] then st == st' else !Ends(lines[0]) && Passes(lines[1..], ReadLine(st, lines[0]), st')
  }

  lemma {:induction false} ScanPasses(lines: seq<string>, rest: seq<string>, st: Section, st': Section)
    requires Passes(lines, st, st')
    ensures Scan(lines + rest, st) == Scan(rest, st')
    decreases |lines|
  {
    hide Ends, ReadLine;
    if lines == [] {
      assert lines + rest == rest;
    } else {
      assert (lines + rest)[0] == lines[0] && (lines + rest)[1..] == lines[1..] + rest;
      ScanPasses(lines[1..], rest, ReadLine(st, lines[0]), st');
    }
  }

  lemma {:induction false} PassesConcat(a: seq<string>, b: seq<string>, st: Section, mid: Section, st': Section)
    requires Passes(a, st, mid) && Passes(b, mid, st')
    ensures Passes(a + b, st, st')
    decreases |a|
  {
    hide Ends, ReadLine;
    if a == [] {
      assert a + b == b;
    } else {
      assert (a + b)[0] == a[0] && (a + b)[1..] == a[1..] + b;
      PassesConcat(a[1..], b, ReadLine(st, a[0]), mid, st');
    }
  }

  lemma EntryPasses(printable: char -> bool, indent: string, p: Profile, st: Section)
    requires IsIndent(indent) && ShortName(p.name) && (st.indent.None? || st.indent == Some(indent))
    ensures Passes(EntryLines(printable, indent, p), st, Section(Some(indent), st.have + {p.name}))
  {
    hide Ends, ReadLine, NameLine, Fields, ShortName, IsIndent;
    ReadNameLine(printable, indent, p.name, st);
    ReadFieldsLine(printable, indent, p, st.have + {p.name});
    var lines := EntryLines(printable, indent, p);
    assert lines[1..][0] == lines[1] && lines[1..][1..] == [];
    assert Passes(lines[1..], Section(Some(indent), st.have + {p.name}), Section(Some(indent), st.have + {p.name}));
  }

  /** Reading all the entries that were written adds exactly their names. */
  lemma {:induction false} EntriesPass(printable: char -> bool, indent: string, ps: seq<Profile>, st: Section)
    requires IsIndent(indent) && ValidProfiles(ps) && (st.indent.None? || st.indent == Some(indent))
    ensures Passes(AllEntries(printable, indent, ps), st, After(indent, st, ps))
  {
    if ps != [] {
      hide EntryLines, IsIndent, ShortName, Passes;
      var n := |ps| - 1;
      EntriesPass(printable, indent, ps[..n], st);
      var mid := After(indent, st, ps[..n]);
      EntryPasses(printable, indent, ps[n], mid);
      assert mid.have + {ps[n].name} == st.have + NameSet(ps);
      PassesConcat(AllEntries(printable, indent, ps[..n]), EntryLines(printable, indent, ps[n]), st, mid, After(indent, st, ps));
    }
  }

  // ----- The indentation of a section -----

  lemma LeadIsBlank(line: string)
    requires !Skipped(line) && !Ends(line)
    ensures IsIndent(Lead(line))
  {
    hide Trim;
    LeadAllBlank(line);
  }

  lemma {:induction false} LeadAllBlank(line: string)
    ensures All(IsBlank, Lead(line))
  {
    if line != "" && IsBlank(line[0]) {
      LeadAllBlank(line[1..]);
      TrimLeftParts(IsBlank, line);
      assert Lead(line) == [line[0]] + Lead(line[1..]);
    }
  }

  predicate GoodIndent(st: Section) {
    st.indent.Some? ==> IsIndent(st.indent.value)
  }

  lemma {:induction false} ScanIndents(lines: seq<string>, st: Section)
    requires GoodIndent(st)
    ensures GoodIndent(Scan(lines, st))
    decreases |lines|
  {
    if lines != [] && !Ends(lines[0]) {
      hide Ends, Skipped, Lead, EntryKey, IsIndent, Trim;
      if !Skipped(lines[0]) { LeadIsBlank(lines[0]); }
      ScanIndents(lines[1..], ReadLine(st, lines[0]));
    }
  }

  /** With a known indentation, what was defined before only adds to the result. */
  lemma {:induction false} ScanAdds(lines: seq<string>, indent: string, have: set<string>, more: set<string>)
    ensures Scan(lines, Section(Some(indent), more + have)) ==
            Section(Some(indent), more + Scan(lines, Section(Some(indent), have)).have)
    ensures Scan(lines, Section(Some(indent), have)).indent == Some(indent)
    decreases |lines|
  {
    if lines != [] && !Ends(lines[0]) {
      hide Ends, Skipped, Lead, EntryKey, Trim;
      var st := ReadLine(Section(Some(indent), have), lines[0]);
      assert ReadLine(Section(Some(indent), more + have), lines[0]) == Section(Some(indent), more + st.have) by {
        if st.have != have {
          var key := EntryKey(TrimSpace(lines[0])).value;
          assert more + have + {Trim(IsQuote, key)} == more + (have + {Trim(IsQuote, key)});
        }
      }
      ScanAdds(lines[1..], indent, st.have, more);
    }
  }

  /** Reading a section again with the indentation it turned out to have, or any if it has no entry. */
  lemma {:induction false} ScanAgain(lines: seq<string>, indent: string, have: set<string>)
    requires var st := Scan(lines, NOTHING); st.indent.None? || st.indent == Some(indent)
    ensures Scan(lines, Section(Some(indent), have)) == Section(Some(indent), have + Scan(lines, NOTHING).have)
    decreases |lines|
  {
    hide Skipped, Lead, EntryKey, Trim;
    if lines == [] || Ends(lines[0]) {
      assert have + {} == have;
    } else if Skipped(lines[0]) {
      ScanAgain(lines[1..], indent, have);
    } else {
      hide Ends;
      var st := ReadLine(NOTHING, lines[0]);
      ScanAdds(lines[1..], st.indent.value, st.have, {});
      assert st.indent == Some(indent);
      var st' := ReadLine(Section(Some(indent), have), lines[0]);
      assert st'.have == have + st.have;
      ScanAdds(lines[1..], indent, st.have, have);
    }
  }

  // ----- Finding the section again -----

  lemma {:induction false} HeaderStays(lines: seq<string>, i: nat, h: nat, other: seq<string>)
    requires i <= |lines| && FindHeader(lines, i) == At(h)
    requires h < |other| && other[..h + 1] == lines[..h + 1]
    ensures FindHeader(other, i) == At(h)
    decreases |lines| - i
  {
    hide IsSection, HasPrefix;
    assert other[i] == other[..h + 1][i] == lines[i];
    if i < h { HeaderStays(lines, i + 1, h, other); }
  }

  /** No line of the list starts with the section's key. */
  predicate NoHeader(lines: seq<string>) {
    forall i :: 0 <= i < |lines| ==> !HasPrefix(lines[i], SECTION)
  }

  lemma {:induction false} AbsentMeansNone(lines: seq<string>, i: nat)
    requires i <= |lines| && FindHeader(lines, i) == Absent
    ensures NoHeader(lines[i..])
    decreases |lines| - i
  {
    if i < |lines| {
      AbsentMeansNone(lines, i + 1);
      assert forall j :: 1 <= j < |lines[i..]| ==> lines[i..][j] == lines[i + 1..][j - 1];
    }
  }

  lemma {:induction false} HeaderAfter(lines: seq<string>, i: nat, n: nat)
    requires i <= n < |lines| && NoHeader(lines[..n]) && IsSection(lines[n])
    ensures FindHeader(lines, i) == At(n)
    decreases n - i
  {
    if i < n {
      assert lines[..n][i] == lines[i];
      SectionHasKey(lines[i]);
      hide IsSection, HasPrefix;
      HeaderAfter(lines, i + 1, n);
    }
  }

  lemma SectionHasKey(line: string)
    ensures !HasPrefix(line, SECTION) ==> !IsSection(line)
  {
  }

  lemma SectionLine()
    ensures IsSection(SECTION) && '\n' !in SECTION
  {
  }

  // ----- The lines of the result -----

  lemma {:induction false} PartsOneLine(printable: char -> bool, ts: seq<(string, string)>)
    requires forall i :: 0 <= i < |ts| ==> '\n' !in ts[i].1
    ensures '\n' !in Parts(printable, ts)
  {
    if ts != [] {
      hide Escapes;
      EscapesOneLine(printable, ts[0].0);
      PartsOneLine(printable, ts[1..]);
    }
  }

  lemma EntryHasNoNewlines(printable: char -> bool, indent: string, p: Profile)
    requires All(IsBlank, indent) && ValidProfile(p)
    ensures NoNewlines(EntryLines(printable, indent, p))
  {
    hide Escapes, Parts, ShortName;
    EscapesOneLine(printable, p.name);
    PartsOneLine(printable, p.thresholds);
    assert '\n' !in indent;
  }

  lemma {:induction false} EntriesHaveNoNewlines(printable: char -> bool, indent: string, ps: seq<Profile>)
    requires All(IsBlank, indent) && ValidProfiles(ps)
    ensures NoNewlines(AllEntries(printable, indent, ps))
  {
    if ps != [] {
      hide EntryLines, ValidProfile;
      EntriesHaveNoNewlines(printable, indent, ps[..|ps| - 1]);
      EntryHasNoNewlines(printable, indent, ps[|ps| - 1]);
    }
  }

  lemma {:induction false} MissingAreSome(ps: seq<Profile>, have: set<string>)
    requires ValidProfiles(ps)
    ensures ValidProfiles(Missing(ps, have))
  {
    if ps != [] {
      hide ValidProfile;
      MissingAreSome(ps[..|ps| - 1], have);
    }
  }

  /** The text a profile list is merged into, without the newlines that a new section replaces. */
  function BaseLines(existing: string): seq<string> {
    if FindHeader(Split(existing), 0).At? then Split(existing) else Split(TrimRight(IsNewline, existing))
  }

  function InsertionPoint(existing: string): (k: nat)
    ensures k <= |BaseLines(existing)|
  {
    match FindHeader(Split(existing), 0)
    case At(h) => h + 1
    case _ => |BaseLines(existing)|
  }

  /** The block that is inserted: the entries, below a new section key if there was none. */
  function Block(existing: string, entries: seq<string>, comment: seq<string>): seq<string> {
    if FindHeader(Split(existing), 0).At? then entries else [""] + comment + [SECTION] + entries + [""]
  }

  lemma NewSectionText(t: string, comment: seq<string>, entries: seq<string>)
    requires comment != [] && entries != []
    ensures Join(Split(t) + ([""] + comment + [SECTION] + entries + [""])) ==
            t + "\n\n" + Join(comment) + "\n" + SECTION + "\n" + Join(entries) + "\n"
  {
    hide Join, Split;
    JoinSplit(t);
    JoinConcat([""] + comment + [SECTION] + entries, [""]);
    JoinConcat([""] + comment + [SECTION], entries);
    JoinConcat([""] + comment, [SECTION]);
    JoinConcat([""], comment);
    JoinOne("");
    JoinOne(SECTION);
    JoinConcat(Split(t), [""] + comment + [SECTION] + entries + [""]);
    Associate(t, Join(comment), Join(entries));
  }

  lemma Associate(t: string, c: string, e: string)
    ensures t + "\n" + ("" + "\n" + c + "\n" + SECTION + "\n" + e + "\n" + "") ==
            t + "\n\n" + c + "\n" + SECTION + "\n" + e + "\n"
  {
  }

  /** The result is the lines of the text with one block put in between, whatever the text. */
  lemma InsertionIsConservative(existing: string, entries: seq<string>, comment: seq<string>)
    requires entries != [] && NoNewlines(entries) && comment != [] && NoNewlines(comment)
    ensures var base := BaseLines(existing); var k := InsertionPoint(existing);
      Split(InsertEntries(existing, entries, comment)) == base[..k] + Block(existing, entries, comment) + base[k..]
  {
    hide Split, Join, FindHeader, TrimRight;
    var base, k, block := BaseLines(existing), InsertionPoint(existing), Block(existing, entries, comment);
    SectionLine();
    if !FindHeader(Split(existing), 0).At? {
      NewSectionText(TrimRight(IsNewline, existing), comment, entries);
      assert base[..k] + block + base[k..] == base + block;
    }
    SplitJoin(base[..k] + block + base[k..]);
  }

  // ----- What is defined afterwards -----

  predicate IsComment(lines: seq<string>) {
    forall i :: 0 <= i < |lines| ==> '\n' !in lines[i] && lines[i] != "" && lines[i][0] == '#'
  }

  lemma CommentIsNoHeader(comment: seq<string>)
    requires IsComment(comment)
    ensures NoHeader([""] + comment) && NoNewlines(comment)
  {
    var lines := [""] + comment;
    forall i | 0 <= i < |lines| ensures !HasPrefix(lines[i], SECTION) {
      if i > 0 {
        assert lines[i] == comment[i - 1];
        DifferentFirst(lines[i], SECTION);
      }
    }
  }

  lemma LastEmptyLine(most: string)
    ensures Split(most + "\n") == Split(most) + [""]
  {
    hide Split, Join;
    JoinSplit(most);
    JoinConcat(Split(most), [""]);
    JoinOne("");
    assert most + "\n" + "" == most + "\n";
    SplitJoin(Split(most) + [""]);
  }

  /** Cutting newlines off the end drops empty lines only. */
  lemma {:induction false} TrimmedNoHeader(text: string)
    requires NoHeader(Split(text))
    ensures NoHeader(Split(TrimRight(IsNewline, text)))
    decreases |text|
  {
    hide Split, NoHeader;
    if text != "" && text[|text| - 1] == '\n' {
      var most := text[..|text| - 1];
      assert text == most + "\n";
      LastEmptyLine(most);
      FewerNoHeader(Split(most), [""]);
      TrimmedNoHeader(most);
    }
  }

  lemma FewerNoHeader(a: seq<string>, b: seq<string>)
    requires NoHeader(a + b)
    ensures NoHeader(a)
  {
    hide HasPrefix;
    assert forall i :: 0 <= i < |a| ==> (a + b)[i] == a[i];
  }

  lemma ScanNewSection(printable: char -> bool, ps: seq<Profile>, indent: string, rest: seq<string>)
    requires ps != [] && ValidProfiles(ps) && IsIndent(indent)
    requires Scan(rest, NOTHING).indent.None? || Scan(rest, NOTHING).indent == Some(indent)
    ensures Scan(AllEntries(printable, indent, ps) + rest, NOTHING).have == NameSet(ps) + Scan(rest, NOTHING).have
    ensures Scan(AllEntries(printable, indent, ps) + rest, NOTHING).indent == Some(indent)
  {
    hide Passes, Scan, AllEntries, IsIndent;
    EntriesPass(printable, indent, ps, NOTHING);
    assert {} + NameSet(ps) == NameSet(ps);
    ScanPasses(AllEntries(printable, indent, ps), rest, NOTHING, After(indent, NOTHING, ps));
    ScanAgain(rest, indent, NameSet(ps));
  }

  lemma EmptyLastLine()
    ensures Scan([""], NOTHING).indent.None? && Scan([""], NOTHING).have == {}
  {
    assert [""][1..] == [];
  }

  lemma DefinedAt(text: string, lines: seq<string>, h: nat, rest: seq<string>)
    requires Split(text) == lines && FindHeader(lines, 0) == At(h) && lines[h + 1..] == rest
    ensures Defined(text) == Scan(rest, NOTHING).have
  {
    hide Split, FindHeader, Scan;
  }

  lemma WhereInserted(existing: string, entries: seq<string>, comment: seq<string>)
    ensures FindHeader(Split(existing), 0).At? ==>
              && BaseLines(existing) == Split(existing)
              && InsertionPoint(existing) == FindHeader(Split(existing), 0).index + 1
              && Block(existing, entries, comment) == entries
    ensures FindHeader(Split(existing), 0).Absent? ==>
              && BaseLines(existing) == Split(TrimRight(IsNewline, existing))
              && InsertionPoint(existing) == |BaseLines(existing)|
              && Block(existing, entries, comment) == [""] + comment + [SECTION] + entries + [""]
  {
    hide Split, FindHeader, TrimRight;
  }

  lemma DefaultIndent()
    ensures IsIndent("  ")
  {
  }

  lemma DefinedInSection(printable: char -> bool, comment: seq<string>, existing: string, ps: seq<Profile>)
    requires FindHeader(Split(existing), 0).At? && ps != [] && ValidProfiles(ps) && comment != [] && NoNewlines(comment)
    ensures var updated := InsertEntries(existing, AllEntries(printable, IndentOf(Read(Split(existing))), ps), comment);
      FindHeader(Split(updated), 0).At? && Defined(updated) == Defined(existing) + NameSet(ps)
  {
    hide *;
    var lines := Split(existing);
    var h := FindHeader(lines, 0).index;
    var st := Read(lines);
    SectionIndent(lines, h);
    var entries := AllEntries(printable, IndentOf(st), ps);
    SomeEntries(printable, IndentOf(st), ps);
    WhereInserted(existing, entries, comment);
    InsertionIsConservative(existing, entries, comment);
    var updated := InsertEntries(existing, entries, comment);
    var result := lines[..h + 1] + entries + lines[h + 1..];
    assert result[..h + 1] == lines[..h + 1] && result[h + 1..] == entries + lines[h + 1..];
    HeaderStays(lines, 0, h, result);
    DefinedAt(existing, lines, h, lines[h + 1..]);
    DefinedAt(updated, result, h, entries + lines[h + 1..]);
    ScanNewSection(printable, ps, IndentOf(st), lines[h + 1..]);
  }

  lemma SectionIndent(lines: seq<string>, h: nat)
    requires FindHeader(lines, 0) == At(h)
    ensures IsIndent(IndentOf(Read(lines)))
    ensures Read(lines) == Scan(lines[h + 1..], NOTHING)
    ensures Read(lines).indent.None? || Read(lines).indent == Some(IndentOf(Read(lines)))
  {
    hide FindHeader, Scan;
    ScanIndents(lines[h + 1..], NOTHING);
  }

  lemma SomeEntries(printable: char -> bool, indent: string, ps: seq<Profile>)
    requires ps != [] && IsIndent(indent) && ValidProfiles(ps)
    ensures AllEntries(printable, indent, ps) != [] && NoNewlines(AllEntries(printable, indent, ps))
  {
    hide NoNewlines, ValidProfiles;
    EntriesHaveNoNewlines(printable, indent, ps);
  }

  lemma DefinedInNewSection(printable: char -> bool, comment: seq<string>, existing: string, ps: seq<Profile>)
    requires FindHeader(Split(existing), 0).Absent? && ps != [] && ValidProfiles(ps) && comment != [] && IsComment(comment)
    ensures var updated := InsertEntries(existing, AllEntries(printable, "  ", ps), comment);
      FindHeader(Split(updated), 0).At? && Defined(updated) == NameSet(ps)
  {
    hide *;
    var entries := AllEntries(printable, "  ", ps);
    DefaultIndent();
    SomeEntries(printable, "  ", ps);
    CommentIsNoHeader(comment);
    WhereInserted(existing, entries, comment);
    InsertionIsConservative(existing, entries, comment);
    var base := BaseLines(existing);
    var above := base + ([""] + comment);
    var result := above + [SECTION] + entries + [""];
    assert result == base + ([""] + comment + [SECTION] + entries + [""]);
    AbsentMeansNone(Split(existing), 0);
    assert Split(existing)[0..] == Split(existing);
    TrimmedNoHeader(existing);
    BothNoHeader(base, [""] + comment);
    assert result[..|above|] == above && result[|above|] == SECTION && result[|above| + 1..] == entries + [""];
    SectionLine();
    HeaderAfter(result, 0, |above|);
    DefinedAt(InsertEntries(existing, entries, comment), result, |above|, entries + [""]);
    EmptyLastLine();
    ScanNewSection(printable, ps, "  ", [""]);
  }

  lemma BothNoHeader(a: seq<string>, b: seq<string>)
    requires NoHeader(a) && NoHeader(b)
    ensures NoHeader(a + b)
  {
    hide HasPrefix;
  }

  lemma {:induction false} NoneMissing(ps: seq<Profile>, have: set<string>)
    requires NameSet(ps) <= have
    ensures Missing(ps, have) == [] && Present(ps, have) == Names(ps)
  {
    if ps != [] { NoneMissing(ps[..|ps| - 1], have); }
  }

  lemma {:induction false} MissingComplete(ps: seq<Profile>, have: set<string>)
    ensures NameSet(ps) <= have + NameSet(Missing(ps, have))
  {
    if ps != [] {
      var most := Missing(ps[..|ps| - 1], have);
      var p := ps[|ps| - 1];
      MissingComplete(ps[..|ps| - 1], have);
      if p.name in have {
        assert Missing(ps, have) == most;
      } else {
        assert (most + [p])[..|most|] == most;
      }
    }
  }

  lemma ReadIsDefined(text: string)
    ensures Read(Split(text)).have == Defined(text)
    ensures FindHeader(Split(text), 0).Absent? ==> IndentOf(Read(Split(text))) == "  " && Defined(text) == {}
  {
    hide Split, FindHeader, Scan;
  }

  /** The merge defines exactly what was defined before and the profiles it reports as added. */
  lemma MergeDefines(printable: char -> bool, comment: seq<string>, existing: string, ps: seq<Profile>)
    requires ValidProfiles(ps) && comment != [] && IsComment(comment)
    requires Merge(printable, comment, existing, ps).Success?
    ensures var added := Missing(ps, Defined(existing)); var m := Merge(printable, comment, existing, ps).value;
      && m.added == Names(added)
      && !FindHeader(Split(m.updated), 0).Inline?
      && Defined(m.updated) == Defined(existing) + NameSet(added)
  {
    hide Split, FindHeader, Read, Defined, Missing, Present, AllEntries, InsertEntries, IsComment, ValidProfile, NoNewlines;
    ReadIsDefined(existing);
    var added := Missing(ps, Defined(existing));
    MissingAreSome(ps, Defined(existing));
    if added != [] {
      if FindHeader(Split(existing), 0).At? {
        CommentIsNoHeader(comment);
        DefinedInSection(printable, comment, existing, added);
      } else {
        DefinedInNewSection(printable, comment, existing, added);
      }
    }
  }

  /** A text that defines all the profiles already is returned as it is. */
  lemma NothingToAdd(printable: char -> bool, comment: seq<string>, text: string, ps: seq<Profile>)
    requires !FindHeader(Split(text), 0).Inline? && NameSet(ps) <= Defined(text)
    ensures Merge(printable, comment, text, ps) == Success(Merged(text, [], Names(ps)))
  {
    hide Split, FindHeader, Read, Defined, Missing, Present, NameSet;
    ReadIsDefined(text);
    NoneMissing(ps, Defined(text));
  }

  /** Merging the same profiles again adds nothing, skips all of them, and returns its input unchanged. */
  lemma MergeIsIdempotent(printable: char -> bool, comment: seq<string>, existing: string, ps: seq<Profile>)
    requires ValidProfiles(ps) && comment != [] && IsComment(comment)
    requires Merge(printable, comment, existing, ps).Success?
    ensures var updated := Merge(printable, comment, existing, ps).value.updated;
      Merge(printable, comment, updated, ps) == Success(Merged(updated, [], Names(ps)))
  {
    hide Merge, Defined, Missing, NameSet, FindHeader, Split, IsComment, ValidProfiles;
    MergeDefines(printable, comment, existing, ps);
    MissingComplete(ps, Defined(existing));
    NothingToAdd(printable, comment, Merge(printable, comment, existing, ps).value.updated, ps);
  }

  /** A merge that adds something puts one block of lines into the text and changes nothing else: the entries of the
      profiles that were missing, in their order and with the section's indentation.  Any other merge returns the text
      itself. */
  lemma MergeIsConservative(printable: char -> bool, comment: seq<string>, existing: string, ps: seq<Profile>)
    returns (block: seq<string>)
    requires ValidProfiles(ps) && comment != [] && IsComment(comment)
    requires Merge(printable, comment, existing, ps).Success?
    ensures var m := Merge(printable, comment, existing, ps).value; var base := BaseLines(existing);
      && (m.added == [] ==> m.updated == existing)
      && (m.added != [] ==> Split(m.updated) == base[..InsertionPoint(existing)] + block + base[InsertionPoint(existing)..])
    ensures var st := Read(Split(existing));
      block == Block(existing, AllEntries(printable, IndentOf(st), Missing(ps, st.have)), comment)
  {
    hide Split, FindHeader, Read, Missing, Present, AllEntries, InsertEntries, IsComment, ValidProfile, NoNewlines,
      BaseLines, InsertionPoint, Block, IsIndent;
    var st := Read(Split(existing));
    var added := Missing(ps, st.have);
    MissingAreSome(ps, st.have);
    NamesNone(added);
    ReadIndent(Split(existing));
    CommentIsNoHeader(comment);
    block := Block(existing, AllEntries(printable, IndentOf(st), added), comment);
    if added != [] {
      SomeEntries(printable, IndentOf(st), added);
      InsertionIsConservative(existing, AllEntries(printable, IndentOf(st), added), comment);
    }
  }

  lemma ReadIndent(lines: seq<string>)
    ensures IsIndent(IndentOf(Read(lines)))
  {
    hide Scan;
    if FindHeader(lines, 0).At? { SectionIndent(lines, FindHeader(lines, 0).index); }
  }

  // ----- What an entry says -----

  /** The limits of a profile, as a reader of the config sees them. */
  datatype Limits = Unlimited | Limited(thresholds: seq<(string, string)>)

  function LimitsOf(p: Profile): Limits {
    if p.unlimited then Unlimited else Limited(p.thresholds)
  }

  /** `"window": ratio` up to the next comma, and what follows the comma, if there is one. */
  function ReadPair(s: string): (r: Option<((string, string), Option<string>)>)
    ensures r.Some? && r.value.1.Some? ==> |r.value.1.value| < |s|
  {
    var window := ReadQuoted(s);
    if window.None? || !HasPrefix(window.value.1, ": ") then None
    else
      var text := window.value.1[2..];
      var i := IndexByte(text, ',');
      if i == -1 then Some(((window.value.0, text), None))
      else Some(((window.value.0, text[..i]), Some(text[i + 1..])))
  }

  function ReadPairs(s: string): Option<seq<(string, string)>>
    decreases |s|
  {
    var first := ReadPair(s);
    if first.None? then None
    else if first.value.1.None? then Some([first.value.0])
    else if !HasPrefix(first.value.1.value, " ") then None
    else
      var more := ReadPairs(first.value.1.value[1..]);
      if more.None? then None else Some([first.value.0] + more.value)
  }

  const OPENING := "thresholds: { "
  const CLOSING := " }"

  /** The line below an entry's name. */
  function ReadFields(line: string): Option<Limits> {
    if line == "unlimited: true" then Some(Unlimited)
    else if |line| < |OPENING| + |CLOSING| || !HasPrefix(line, OPENING) || !HasSuffix(line, CLOSING) then None
    else
      var inner := line[|OPENING|..|line| - |CLOSING|];
      if inner == "" then Some(Limited([]))
      else
        var pairs := ReadPairs(inner);
        if pairs.None? then None else Some(Limited(pairs.value))
  }

  /** formatRatio writes digits and a point, so there is no comma in a ratio. */
  predicate PlainRatios(ts: seq<(string, string)>) {
    forall i :: 0 <= i < |ts| ==> ',' !in ts[i].1
  }

  lemma CutAtComma(ratio: string, rest: string)
    requires ',' !in ratio && rest != "" && rest[0] == ','
    ensures var i := IndexByte(ratio + rest, ',');
      i == |ratio| && (ratio + rest)[..i] == ratio && (ratio + rest)[i + 1..] == rest[1..]
  {
    hide IndexByte;
    IndexByteConcat(ratio, rest, ',');
    IndexByteIs(rest, ',', 0);
  }

  lemma NoComma(ratio: string)
    requires ',' !in ratio
    ensures IndexByte(ratio, ',') == -1
  {
    hide IndexByte;
  }

  lemma BehindColon(text: string)
    ensures HasPrefix(": " + text, ": ") && (": " + text)[2..] == text
  {
  }

  lemma ReadPairOf(printable: char -> bool, t: (string, string), rest: string)
    requires ',' !in t.1 && (rest == "" || rest[0] == ',')
    ensures ReadPair(Part(printable, t) + rest) == Some((t, if rest == "" then None else Some(rest[1..])))
  {
    hide ReadQuoted, Quote, IndexByte, HasPrefix;
    var text := t.1 + rest;
    assert Part(printable, t) + rest == Quote(printable, t.0) + (": " + text);
    ReadUndoesQuote(printable, t.0, ": " + text);
    BehindColon(text);
    if rest == "" {
      assert text == t.1;
      NoComma(t.1);
    } else {
      CutAtComma(t.1, rest);
    }
  }

  lemma {:induction false} ReadPairsOf(printable: char -> bool, ts: seq<(string, string)>)
    requires ts != [] && PlainRatios(ts)
    ensures ReadPairs(Parts(printable, ts)) == Some(ts)
    decreases |ts|
  {
    hide ReadPair, Part;
    var part := Part(printable, ts[0]);
    if |ts| == 1 {
      ReadPairOf(printable, ts[0], "");
      assert part + "" == part && ts == [ts[0]];
    } else {
      var rest := ", " + Parts(printable, ts[1..]);
      ReadPairOf(printable, ts[0], rest);
      assert Parts(printable, ts) == part + rest;
      assert rest[1..][1..] == Parts(printable, ts[1..]) && HasPrefix(rest[1..], " ");
      ReadPairsOf(printable, ts[1..]);
      assert [ts[0]] + ts[1..] == ts;
    }
  }

  lemma PartsEmpty(printable: char -> bool, ts: seq<(string, string)>)
    ensures Parts(printable, ts) == "" <==> ts == []
  {
    hide Escapes;
  }

  /** The line that is written says what the profile says, window by window and in order. */
  lemma FieldsSayLimits(printable: char -> bool, p: Profile)
    requires PlainRatios(p.thresholds)
    ensures ReadFields(Fields(printable, p)) == Some(LimitsOf(p))
  {
    hide Parts, ReadPairs;
    if !p.unlimited {
      var inner := Parts(printable, p.thresholds);
      var line := Fields(printable, p);
      PartsEmpty(printable, p.thresholds);
      FramedInner(inner, line);
      if inner != "" { ReadPairsOf(printable, p.thresholds); }
    }
  }

  lemma FramedInner(inner: string, line: string)
    requires line == OPENING + inner + CLOSING
    ensures HasPrefix(line, OPENING) && HasSuffix(line, CLOSING) && |line| == |OPENING| + |inner| + |CLOSING|
    ensures line[|OPENING|..|line| - |CLOSING|] == inner && line[0] == 't'
  {
    assert line[..|OPENING|] == OPENING;
  }

  /** The entry of a name: the first line with the section's indentation and that key; its limits are on the next. */
  function LookUp(lines: seq<string>, indent: string, name: string): Option<Limits>
    decreases |lines|
  {
    if lines == [] || Ends(lines[0]) then None
    else if IsEntry(lines[0], indent, name) then if |lines| > 1 then ReadFields(TrimSpace(lines[1])) else None
    else LookUp(lines[1..], indent, name)
  }

  predicate IsEntry(line: string, indent: string, name: string) {
    && !Skipped(line) && Lead(line) == indent
    && EntryKey(TrimSpace(line)).Some? && Trim(IsQuote, EntryKey(TrimSpace(line)).value) == name
  }

  /** What a config text says about a profile. */
  function ConfiguredLimits(text: string, name: string): Option<Limits> {
    match FindHeader(Split(text), 0)
    case At(h) => LookUp(Split(text)[h + 1..], IndentOf(Read(Split(text))), name)
    case _ => None
  }

  /** Lines that belong to no entry of that name. */
  predicate NotAbout(lines: seq<string>, indent: string, name: string) {
    forall i :: 0 <= i < |lines| ==> !Ends(lines[i]) && !IsEntry(lines[i], indent, name)
  }

  lemma {:induction false} LookUpBehind(lines: seq<string>, rest: seq<string>, indent: string, name: string)
    requires NotAbout(lines, indent, name)
    ensures LookUp(lines + rest, indent, name) == LookUp(rest, indent, name)
    decreases |lines|
  {
    hide Ends, IsEntry, ReadFields;
    if lines == [] {
      assert lines + rest == rest;
    } else {
      assert (lines + rest)[0] == lines[0] && (lines + rest)[1..] == lines[1..] + rest;
      LookUpBehind(lines[1..], rest, indent, name);
    }
  }

  lemma EntryLineFacts(printable: char -> bool, indent: string, p: Profile, name: string)
    requires IsIndent(indent) && ShortName(p.name)
    ensures !Ends(indent + NameLine(printable, p.name)) && !Ends(indent + indent + Fields(printable, p))
    ensures IsEntry(indent + NameLine(printable, p.name), indent, name) <==> p.name == name
    ensures !IsEntry(indent + indent + Fields(printable, p), indent, name)
    ensures TrimSpace(indent + indent + Fields(printable, p)) == Fields(printable, p)
  {
    hide ShortName, Escapes, Trim, EntryKey, IsSpace, Fields;
    NameLineVisible(printable, p.name);
    IndentedLine(indent, NameLine(printable, p.name));
    NameLineKey(printable, p.name);
    FieldsShape(printable, p);
    assert |indent + indent| > |indent|;
    IndentedLine(indent + indent, Fields(printable, p));
  }

  lemma NameLineVisible(printable: char -> bool, name: string)
    ensures var line := NameLine(printable, name); line != "" && Trimmed(IsSpace, line) && line[0] != '#'
  {
    hide Escapes;
  }

  lemma EntryNotAbout(printable: char -> bool, indent: string, p: Profile, name: string)
    requires IsIndent(indent) && ShortName(p.name) && p.name != name
    ensures NotAbout(EntryLines(printable, indent, p), indent, name)
  {
    hide IsEntry, Ends, Fields, NameLine, IsIndent, ShortName;
    EntryLineFacts(printable, indent, p, name);
  }

  lemma EntrySays(printable: char -> bool, indent: string, p: Profile, rest: seq<string>)
    requires IsIndent(indent) && ShortName(p.name) && PlainRatios(p.thresholds)
    ensures LookUp(EntryLines(printable, indent, p) + rest, indent, p.name) == Some(LimitsOf(p))
  {
    hide IsEntry, Ends, Fields, NameLine, IsIndent, ShortName, ReadFields, LimitsOf, Trim;
    EntryLineFacts(printable, indent, p, p.name);
    FieldsSayLimits(printable, p);
    var lines := EntryLines(printable, indent, p) + rest;
    assert lines[0] == indent + NameLine(printable, p.name) && lines[1] == indent + indent + Fields(printable, p);
  }

  /** The first of the profiles with that name. */
  function FirstNamed(ps: seq<Profile>, name: string): Option<Profile> {
    if ps == [] then None else if ps[0].name == name then Some(ps[0]) else FirstNamed(ps[1..], name)
  }

  lemma AllEntriesSnoc(printable: char -> bool, indent: string, ps: seq<Profile>, p: Profile)
    ensures AllEntries(printable, indent, ps + [p]) == AllEntries(printable, indent, ps) + EntryLines(printable, indent, p)
    ensures AllEntries(printable, indent, []) == []
  {
    hide EntryLines;
    assert (ps + [p])[..|ps|] == ps;
  }

  lemma {:induction false} AllEntriesCons(printable: char -> bool, indent: string, ps: seq<Profile>)
    requires ps != []
    ensures AllEntries(printable, indent, ps) == EntryLines(printable, indent, ps[0]) + AllEntries(printable, indent, ps[1..])
    decreases |ps|
  {
    hide *;
    var n := |ps| - 1;
    var p := ps[n];
    AllEntriesSnoc(printable, indent, ps[..n], p);
    assert ps == ps[..n] + [p];
    if n > 0 {
      AllEntriesCons(printable, indent, ps[..n]);
      assert ps[1..] == ps[..n][1..] + [p];
      AllEntriesSnoc(printable, indent, ps[..n][1..], p);
    } else {
      assert ps[..n] == [] && ps[1..] == [];
      assert [] + EntryLines(printable, indent, p) == EntryLines(printable, indent, p) + [];
    }
  }

  predicate AllReadable(ps: seq<Profile>) {
    forall i :: 0 <= i < |ps| ==> ShortName(ps[i].name) && PlainRatios(ps[i].thresholds)
  }

  /** Among the written entries each name finds its own profile; any other name is looked up behind them. */
  lemma {:induction false} EntriesSay(printable: char -> bool, indent: string, ps: seq<Profile>, rest: seq<string>,
                                      name: string)
    requires IsIndent(indent) && AllReadable(ps)
    ensures LookUp(AllEntries(printable, indent, ps) + rest, indent, name) ==
            match FirstNamed(ps, name) { case Some(p) => Some(LimitsOf(p)) case None => LookUp(rest, indent, name) }
    decreases |ps|
  {
    hide LookUp, EntryLines, IsIndent, ShortName, PlainRatios, LimitsOf;
    if ps == [] {
      assert AllEntries(printable, indent, ps) + rest == rest;
    } else {
      var first, more := EntryLines(printable, indent, ps[0]), AllEntries(printable, indent, ps[1..]);
      AllEntriesCons(printable, indent, ps);
      assert first + more + rest == first + (more + rest);
      if ps[0].name == name {
        EntrySays(printable, indent, ps[0], more + rest);
      } else {
        EntryNotAbout(printable, indent, ps[0], name);
        LookUpBehind(first, more + rest, indent, name);
        EntriesSay(printable, indent, ps[1..], rest, name);
      }
    }
  }

  /** The entry section of a text: the lines behind the section's key, and the indentation of its entries. */
  predicate SectionIs(text: string, rest: seq<string>, indent: string) {
    var lines := Split(text);
    match FindHeader(lines, 0)
    case At(h) => lines[h + 1..] == rest && IndentOf(Read(lines)) == indent
    case _ => false
  }

  lemma SectionAt(text: string, lines: seq<string>, h: nat, rest: seq<string>, indent: string)
    requires Split(text) == lines && FindHeader(lines, 0) == At(h) && lines[h + 1..] == rest
    requires Scan(rest, NOTHING).indent == Some(indent)
    ensures SectionIs(text, rest, indent)
  {
    hide Split, FindHeader, Scan;
  }

  lemma SectionSays(text: string, rest: seq<string>, indent: string, name: string)
    requires SectionIs(text, rest, indent)
    ensures ConfiguredLimits(text, name) == LookUp(rest, indent, name)
  {
    hide Split, FindHeader, Read, LookUp;
  }

  lemma SectionAfterInsert(printable: char -> bool, comment: seq<string>, existing: string, ps: seq<Profile>, h: nat)
    requires FindHeader(Split(existing), 0) == At(h) && ps != [] && ValidProfiles(ps)
    requires comment != [] && NoNewlines(comment)
    ensures var st := Read(Split(existing)); var entries := AllEntries(printable, IndentOf(st), ps);
      && SectionIs(existing, Split(existing)[h + 1..], IndentOf(st))
      && SectionIs(InsertEntries(existing, entries, comment), entries + Split(existing)[h + 1..], IndentOf(st))
  {
    hide Split, FindHeader, Scan, AllEntries, InsertEntries, BaseLines, InsertionPoint, Block, IsIndent, IndentOf,
      NoNewlines, ValidProfiles, SectionIs;
    var lines := Split(existing);
    var st := Read(lines);
    SectionIndent(lines, h);
    var entries := AllEntries(printable, IndentOf(st), ps);
    SomeEntries(printable, IndentOf(st), ps);
    WhereInserted(existing, entries, comment);
    InsertionIsConservative(existing, entries, comment);
    var result := lines[..h + 1] + entries + lines[h + 1..];
    assert result[..h + 1] == lines[..h + 1] && result[h + 1..] == entries + lines[h + 1..];
    HeaderStays(lines, 0, h, result);
    ScanNewSection(printable, ps, IndentOf(st), lines[h + 1..]);
    SectionAt(InsertEntries(existing, entries, comment), result, h, entries + lines[h + 1..], IndentOf(st));
    SectionOf(existing, h);
  }

  lemma SectionOf(text: string, h: nat)
    requires FindHeader(Split(text), 0) == At(h)
    ensures SectionIs(text, Split(text)[h + 1..], IndentOf(Read(Split(text))))
  {
    hide Split, FindHeader, Read;
  }

  lemma SectionAfterAppend(printable: char -> bool, comment: seq<string>, existing: string, ps: seq<Profile>)
    requires FindHeader(Split(existing), 0).Absent? && ps != [] && ValidProfiles(ps) && comment != [] && IsComment(comment)
    ensures var entries := AllEntries(printable, "  ", ps);
      SectionIs(InsertEntries(existing, entries, comment), entries + [""], "  ")
  {
    hide *;
    var entries := AllEntries(printable, "  ", ps);
    DefaultIndent();
    SomeEntries(printable, "  ", ps);
    CommentIsNoHeader(comment);
    WhereInserted(existing, entries, comment);
    InsertionIsConservative(existing, entries, comment);
    var base := BaseLines(existing);
    var above := base + ([""] + comment);
    var result := above + [SECTION] + entries + [""];
    assert result == base + ([""] + comment + [SECTION] + entries + [""]);
    AbsentMeansNone(Split(existing), 0);
    assert Split(existing)[0..] == Split(existing);
    TrimmedNoHeader(existing);
    BothNoHeader(base, [""] + comment);
    assert result[..|above|] == above && result[|above|] == SECTION && result[|above| + 1..] == entries + [""];
    SectionLine();
    HeaderAfter(result, 0, |above|);
    EmptyLastLine();
    ScanNewSection(printable, ps, "  ", [""]);
    SectionAt(InsertEntries(existing, entries, comment), result, |above|, entries + [""], "  ");
  }

  lemma NothingBehind(indent: string, name: string)
    ensures LookUp([""], indent, name) == None
  {
    assert [""][1..] == [];
  }

  lemma {:induction false} FirstMissing(ps: seq<Profile>, have: set<string>, name: string)
    ensures FirstNamed(Missing(ps, have), name) == if name in have then None else FirstNamed(ps, name)
    decreases |ps|
  {
    if ps != [] {
      var n := |ps| - 1;
      FirstMissing(ps[..n], have, name);
      assert ps == ps[..n] + [ps[n]];
      FirstNamedSnoc(ps[..n], ps[n], name);
      FirstNamedSnoc(Missing(ps[..n], have), ps[n], name);
      assert Missing(ps[..n], have) + [] == Missing(ps[..n], have);
    }
  }

  lemma {:induction false} FirstNamedSnoc(ps: seq<Profile>, p: Profile, name: string)
    ensures FirstNamed(ps + [p], name) ==
            if FirstNamed(ps, name).Some? then FirstNamed(ps, name) else if p.name == name then Some(p) else None
    decreases |ps|
  {
    if ps != [] {
      assert (ps + [p])[1..] == ps[1..] + [p];
      FirstNamedSnoc(ps[1..], p, name);
    } else {
      assert (ps + [p])[1..] == [];
    }
  }

  lemma {:induction false} ReadableIsMissing(ps: seq<Profile>, have: set<string>)
    requires AllReadable(ps)
    ensures AllReadable(Missing(ps, have))
    decreases |ps|
  {
    if ps != [] {
      hide ShortName, PlainRatios;
      ReadableIsMissing(ps[..|ps| - 1], have);
    }
  }

  /** After a merge a config says of every name that was not defined before what the first profile of that name says,
      and of every other name what it said before. */
  lemma MergeCarriesProfiles(printable: char -> bool, comment: seq<string>, existing: string, ps: seq<Profile>, name: string)
    requires ValidProfiles(ps) && AllReadable(ps) && comment != [] && IsComment(comment)
    requires Merge(printable, comment, existing, ps).Success?
    ensures var updated := Merge(printable, comment, existing, ps).value.updated;
      ConfiguredLimits(updated, name) ==
      if name !in Defined(existing) && FirstNamed(ps, name).Some? then Some(LimitsOf(FirstNamed(ps, name).value))
      else ConfiguredLimits(existing, name)
  {
    hide Split, FindHeader, Read, Defined, Missing, Present, AllEntries, InsertEntries, IsComment, ValidProfile, NoNewlines,
      ConfiguredLimits, LimitsOf, FirstNamed, AllReadable, LookUp, SectionIs, IndentOf;
    ReadIsDefined(existing);
    var have := Defined(existing);
    var added := Missing(ps, have);
    MissingAreSome(ps, have);
    ReadableIsMissing(ps, have);
    FirstMissing(ps, have, name);
    if added == [] {
      NoneNamed(name);
    } else if FindHeader(Split(existing), 0).At? {
      CommentIsNoHeader(comment);
      CarriesInSection(printable, comment, existing, added, name);
    } else {
      CarriesInNewSection(printable, comment, existing, added, name);
    }
  }

  lemma NoneNamed(name: string)
    ensures FirstNamed([], name) == None
  {
  }

  lemma CarriesInSection(printable: char -> bool, comment: seq<string>, existing: string, ps: seq<Profile>, name: string)
    requires FindHeader(Split(existing), 0).At? && ps != [] && ValidProfiles(ps) && AllReadable(ps)
    requires comment != [] && NoNewlines(comment)
    ensures var updated := InsertEntries(existing, AllEntries(printable, IndentOf(Read(Split(existing))), ps), comment);
      ConfiguredLimits(updated, name) ==
      match FirstNamed(ps, name) { case Some(p) => Some(LimitsOf(p)) case None => ConfiguredLimits(existing, name) }
  {
    hide *;
    var h, indent := FindHeader(Split(existing), 0).index, IndentOf(Read(Split(existing)));
    var rest, entries := Split(existing)[h + 1..], AllEntries(printable, indent, ps);
    SectionIndent(Split(existing), h);
    SectionAfterInsert(printable, comment, existing, ps, h);
    SectionSays(existing, rest, indent, name);
    SectionSays(InsertEntries(existing, entries, comment), entries + rest, indent, name);
    EntriesSay(printable, indent, ps, rest, name);
  }

  lemma CarriesInNewSection(printable: char -> bool, comment: seq<string>, existing: string, ps: seq<Profile>, name: string)
    requires FindHeader(Split(existing), 0).Absent? && ps != [] && ValidProfiles(ps) && AllReadable(ps)
    requires comment != [] && IsComment(comment)
    ensures var updated := InsertEntries(existing, AllEntries(printable, "  ", ps), comment);
      ConfiguredLimits(updated, name) ==
      match FirstNamed(ps, name) { case Some(p) => Some(LimitsOf(p)) case None => ConfiguredLimits(existing, name) }
  {
    hide *;
    var entries := AllEntries(printable, "  ", ps);
    DefaultIndent();
    SectionAfterAppend(printable, comment, existing, ps);
    SectionSays(InsertEntries(existing, entries, comment), entries + [""], "  ", name);
    EntriesSay(printable, "  ", ps, [""], name);
    NothingBehind("  ", name);
    NoSectionSaysNothing(existing, name);
  }

  lemma NoSectionSaysNothing(text: string, name: string)
    requires FindHeader(Split(text), 0).Absent?
    ensures ConfiguredLimits(text, name) == None
  {
    hide Split, FindHeader;
  }

  // ----- What is written by hand -----

  /** A line with the section's key is a section exactly when nothing but spaces and a comment follows the key; with
      any other value the merge gives up. */
  lemma SectionForms(pad: string, value: string)
    requires All(IsReSpace, pad) && (value == "" || !IsReSpace(value[0]))
    ensures IsSection("quota_profiles:" + (pad + value)) <==> value == "" || value[0] == '#'
  {
    var line := "quota_profiles:" + (pad + value);
    assert line[|SECTION|..] == pad + value && line[..|SECTION|] == SECTION;
    TrimLeftPadding(IsReSpace, pad, value);
  }

  lemma InlineIsRefused(printable: char -> bool, comment: seq<string>, ps: seq<Profile>, above: seq<string>, pad: string,
                        value: string, below: seq<string>)
    requires NoHeader(above) && NoNewlines(above) && NoNewlines(below) && '\n' !in pad && '\n' !in value
    requires All(IsReSpace, pad) && (value == "" || !IsReSpace(value[0]))
    ensures var text := Join(above + ["quota_profiles:" + (pad + value)] + below);
      Merge(printable, comment, text, ps).Failure? <==> value != "" && value[0] != '#'
  {
    hide Split, Join, IsSection, HasPrefix, Read, Missing, Present, AllEntries, InsertEntries, All;
    var line := "quota_profiles:" + (pad + value);
    var lines := above + [line] + below;
    SectionForms(pad, value);
    KeyInFront(pad + value);
    assert '\n' !in line;
    SplitJoin(lines);
    assert lines[..|above|] == above && lines[|above|] == line;
    HeaderIs(lines, 0, |above|);
  }

  lemma KeyInFront(rest: string)
    ensures HasPrefix("quota_profiles:" + rest, SECTION) && '\n' !in SECTION
  {
    assert ("quota_profiles:" + rest)[..|SECTION|] == SECTION;
  }

  lemma {:induction false} HeaderIs(lines: seq<string>, i: nat, n: nat)
    requires i <= n < |lines| && NoHeader(lines[..n]) && HasPrefix(lines[n], SECTION)
    ensures FindHeader(lines, i) == if IsSection(lines[n]) then At(n) else Inline
    decreases n - i
  {
    if i < n {
      assert lines[..n][i] == lines[i];
      SectionHasKey(lines[i]);
      hide IsSection, HasPrefix;
      HeaderIs(lines, i + 1, n);
    }
  }

  /** A key that is written without quotes. */
  predicate PlainKey(name: string) {
    name != "" && forall i :: 0 <= i < |name| ==> !IsReSpace(name[i]) && name[i] != ':' && !IsQuote(name[i])
  }

  lemma {:induction false} BareLengthIs(name: string, rest: string)
    requires forall i :: 0 <= i < |name| ==> !IsReSpace(name[i]) && name[i] != ':'
    requires rest != "" && rest[0] == ':'
    ensures BareLength(name + rest) == |name|
  {
    if name == "" {
      assert name + rest == rest;
    } else {
      assert (name + rest)[1..] == name[1..] + rest;
      BareLengthIs(name[1..], rest);
    }
  }

  /** A hand-written key is read as it stands, whatever value follows it behind a space. */
  lemma PlainKeyIsRead(name: string, value: string)
    requires PlainKey(name) && (value == "" || IsReSpace(value[0]))
    ensures EntryKey(name + (":" + value)) == Some(name) && Trim(IsQuote, name) == name
  {
    hide Trim, BareLength;
    var text := name + (":" + value);
    BareLengthIs(name, ":" + value);
    assert text[0] == name[0] && text[..|name|] == name && text[|name|..] == ":" + value;
    TrimLeaves(IsQuote, name);
  }
}
