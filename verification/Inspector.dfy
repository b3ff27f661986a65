/**
Cutting a long command output down for the summarizer (fakebash/summarizer.go).  Which lines report a failure is a
parameter, and so are the texts of the markers.
*/
module Inspector {
  import opened GoText
  import opened Lines

  const TEN_KB := 10 * 1024
  const CHUNK := 4096
  const MAX_MATCHES := 20
  const MAX_BYTES := 32 * 1024
  const MAX_LINE := 4096
  const EDGE := 50
  const BEFORE := 15
  const AFTER := 35

  datatype Markers = Markers(inlined: string, gap: string, capped: string, cut: string)

  // ----- Which lines are kept -----

  function Failures(fails: string -> bool, lines: seq<string>): nat {
    if lines == [] then 0
    else Failures(fails, lines[..|lines| - 1]) + if fails(lines[|lines| - 1]) then 1 else 0
  }

  /** Line m is one of the first MAX_MATCHES lines that report a failure. */
  predicate Anchor(fails: string -> bool, lines: seq<string>, m: int) {
    0 <= m < |lines| && fails(lines[m]) && Failures(fails, lines[..m + 1]) <= MAX_MATCHES
  }

  predicate AtEdge(n: nat, k: int) {
    k < EDGE || k >= n - EDGE
  }

  predicate NearAnchor(fails: string -> bool, lines: seq<string>, upTo: int, k: int) {
    exists m :: 0 <= m < upTo && Anchor(fails, lines, m) && m - BEFORE <= k <= m + AFTER
  }

  /** The first and last lines, and the windows around the first failures. */
  predicate Keeps(fails: string -> bool, lines: seq<string>, k: int) {
    AtEdge(|lines|, k) || NearAnchor(fails, lines, |lines|, k)
  }

  lemma {:induction false} FailuresGrow(fails: string -> bool, lines: seq<string>, i: nat, j: nat)
    requires i <= j <= |lines|
    ensures Failures(fails, lines[..i]) <= Failures(fails, lines[..j])
  {
    if i < j {
      assert lines[..j][..j - 1] == lines[..j - 1];
      FailuresGrow(fails, lines, i, j - 1);
    }
  }

  method Mark(included: array<bool>, lo: nat, hi: nat)
    requires lo <= hi <= included.Length
    modifies included
    ensures forall k :: 0 <= k < included.Length ==> (included[k] <==> old(included[k]) || lo <= k < hi)
  {
    for j := lo to hi
      invariant forall k :: 0 <= k < included.Length ==> (included[k] <==> old(included[k]) || lo <= k < j)
    {
      included[j] := true;
    }
  }

  method MarkEdges(included: array<bool>)
    requires forall k :: 0 <= k < included.Length ==> !included[k]
    modifies included
    ensures forall k :: 0 <= k < included.Length ==> (included[k] <==> AtEdge(included.Length, k))
  {
    var n := included.Length;
    Mark(included, 0, if n < EDGE then n else EDGE);
    Mark(included, if n < EDGE then 0 else n - EDGE, n);
  }

  method MarkWindows(fails: string -> bool, lines: seq<string>, included: array<bool>)
    requires included.Length == |lines|
    requires forall k :: 0 <= k < |lines| ==> (included[k] <==> AtEdge(|lines|, k))
    modifies included
    ensures forall k :: 0 <= k < |lines| ==> (included[k] <==> Keeps(fails, lines, k))
  {
    var matches := 0;
    for i := 0 to |lines|
      invariant matches == Failures(fails, lines[..i]) <= MAX_MATCHES
      invariant forall k :: 0 <= k < |lines| ==> (included[k] <==> AtEdge(|lines|, k) || NearAnchor(fails, lines, i, k))
    {
      assert lines[..i + 1][..i] == lines[..i];
      if fails(lines[i]) {
        matches := matches + 1;
        if matches > MAX_MATCHES {
          NoMoreAnchors(fails, lines, i);
          return;
        }
        Mark(included, if i < BEFORE then 0 else i - BEFORE, if i + AFTER >= |lines| then |lines| else i + AFTER + 1);
      }
      AnchorsUpTo(fails, lines, i);
    }
  }

  lemma NoMoreAnchors(fails: string -> bool, lines: seq<string>, i: nat)
    requires i < |lines| && Failures(fails, lines[..i + 1]) > MAX_MATCHES
    ensures forall k :: NearAnchor(fails, lines, i, k) <==> NearAnchor(fails, lines, |lines|, k)
  {
    forall m | i <= m < |lines| ensures !Anchor(fails, lines, m) {
      FailuresGrow(fails, lines, i + 1, m + 1);
    }
  }

  lemma AnchorsUpTo(fails: string -> bool, lines: seq<string>, i: nat)
    requires i < |lines|
    ensures forall k :: NearAnchor(fails, lines, i + 1, k) <==>
                        NearAnchor(fails, lines, i, k) || (Anchor(fails, lines, i) && i - BEFORE <= k <= i + AFTER)
  {
  }

  // ----- The output -----

  function InspectorMarkers(): Markers {
    Markers("\n... [Inspector truncated noisy inline data] ...\n",
            "\n... [Inspector truncated noisy lines] ...\n\n",
            "\n... [Inspector capped at maximum context threshold] ...\n",
            " ...[truncated long line]")
  }

  function Cut(mk: Markers, line: string): string {
    if |line| > MAX_LINE then line[..MAX_LINE] + mk.cut else line
  }

  function Framed(mk: Markers, gap: bool, line: string): string {
    (if gap then mk.gap else "") + Cut(mk, line) + "\n"
  }

  /** What line k adds: nothing if it is dropped, and a gap marker before it if the line above it is. */
  function Piece(mk: Markers, lines: seq<string>, keep: seq<bool>, k: nat): string
    requires k < |lines| == |keep|
  {
    if !keep[k] then "" else Framed(mk, k > 0 && !keep[k - 1], lines[k])
  }

  function Body(mk: Markers, lines: seq<string>, keep: seq<bool>, n: nat): string
    requires n <= |lines| == |keep|
  {
    if n == 0 then "" else Body(mk, lines, keep, n - 1) + Piece(mk, lines, keep, n - 1)
  }

  predicate Reaches(mk: Markers, lines: seq<string>, keep: seq<bool>, n: nat)
    requires n <= |lines| == |keep|
  {
    |Body(mk, lines, keep, n)| >= MAX_BYTES
  }

  /** The least number of lines whose text reaches the cap, if n lines do. */
  function FullAt(mk: Markers, lines: seq<string>, keep: seq<bool>, n: nat): (m: nat)
    requires n <= |lines| == |keep|
    ensures m <= n
    decreases n
  {
    if n > 0 && Reaches(mk, lines, keep, n - 1) then FullAt(mk, lines, keep, n - 1) else n
  }

  lemma {:induction false} FullAtIsLeast(mk: Markers, lines: seq<string>, keep: seq<bool>, n: nat) returns (m: nat)
    requires n <= |lines| == |keep| && Reaches(mk, lines, keep, n)
    ensures m == FullAt(mk, lines, keep, n) && 0 < m <= n
    ensures Reaches(mk, lines, keep, m) && !Reaches(mk, lines, keep, m - 1)
    decreases n
  {
    NoLinesNoText(mk, lines, keep);
    hide Reaches;
    if n > 0 && Reaches(mk, lines, keep, n - 1) {
      m := FullAtIsLeast(mk, lines, keep, n - 1);
    } else {
      m := n;
    }
  }

  lemma NoLinesNoText(mk: Markers, lines: seq<string>, keep: seq<bool>)
    requires |lines| == |keep|
    ensures Body(mk, lines, keep, 0) == Listed(mk, Chosen(lines, keep, 0)) && !Reaches(mk, lines, keep, 0)
  {
  }

  function Capped(mk: Markers, lines: seq<string>, keep: seq<bool>): string
    requires |lines| == |keep|
  {
    if !Reaches(mk, lines, keep, |lines|) then Body(mk, lines, keep, |lines|)
    else Body(mk, lines, keep, FullAt(mk, lines, keep, |lines|)) + mk.capped
  }

  function Mask(fails: string -> bool, lines: seq<string>): (keep: seq<bool>)
    ensures |keep| == |lines|
    ensures forall k :: 0 <= k < |lines| ==> keep[k] == Keeps(fails, lines, k)
  {
    seq(|lines|, k requires 0 <= k < |lines| => Keeps(fails, lines, k))
  }

  /** Five lines or fewer: only the head and the tail. */
  function HeadAndTail(mk: Markers, content: string): string {
    if |content| > 2 * CHUNK then content[..CHUNK] + mk.inlined + content[|content| - CHUNK..] else content
  }

  function Extract(mk: Markers, fails: string -> bool, content: string): string {
    if |content| < TEN_KB then content
    else
      var lines := Split(content);
      if |lines| <= 5 then HeadAndTail(mk, content) else Capped(mk, lines, Mask(fails, lines))
  }

  method Emit(mk: Markers, lines: seq<string>, included: array<bool>) returns (sb: string)
    requires included.Length == |lines|
    ensures sb == Capped(mk, lines, included[..])
  {
    hide Piece, Framed, Reaches, Capped;
    ghost var keep := included[..];
    sb := "";
    var inEllipsis := false;
    for i := 0 to |lines|
      invariant sb == Body(mk, lines, keep, i) && |sb| < MAX_BYTES
      invariant inEllipsis <==> i > 0 && !keep[i - 1]
    {
      if included[i] {
        if inEllipsis {
          sb := sb + mk.gap;
          inEllipsis := false;
        }
        var line := lines[i];
        if |line| > MAX_LINE {
          line := line[..MAX_LINE] + mk.cut;
        }
        sb := sb + line;
        sb := sb + "\n";
        BodyNext(mk, lines, keep, i, sb);
        if |sb| >= MAX_BYTES {
          CappedHere(mk, lines, keep, i + 1);
          sb := sb + mk.capped;
          return;
        }
      } else {
        inEllipsis := true;
        BodySkips(mk, lines, keep, i);
      }
    }
    NeverFull(mk, lines, keep);
  }

  method ExtractInspectorLines(mk: Markers, fails: string -> bool, content: string) returns (r: string)
    ensures r == Extract(mk, fails, content)
  {
    hide Capped, Keeps, AtEdge;
    if |content| < TEN_KB { return content; }
    var lines := Split(content);
    if |lines| <= 5 {
      if |content| > 2 * CHUNK {
        return content[..CHUNK] + mk.inlined + content[|content| - CHUNK..];
      }
      return content;
    }
    var included := new bool[|lines|](_ => false);
    MarkEdges(included);
    MarkWindows(fails, lines, included);
    assert included[..] == Mask(fails, lines);
    r := Emit(mk, lines, included);
  }

  lemma BodyNext(mk: Markers, lines: seq<string>, keep: seq<bool>, i: nat, sb: string)
    requires i < |lines| == |keep| && keep[i]
    requires sb == (if i > 0 && !keep[i - 1] then Body(mk, lines, keep, i) + mk.gap else Body(mk, lines, keep, i))
                   + Cut(mk, lines[i]) + "\n"
    ensures sb == Body(mk, lines, keep, i + 1)
  {
    hide *;
    BodyStep(mk, lines, keep, i);
    FramedBehind(mk, Body(mk, lines, keep, i), i > 0 && !keep[i - 1], lines[i]);
  }

  lemma FramedBehind(mk: Markers, sb: string, gap: bool, line: string)
    ensures sb + Framed(mk, gap, line) == (if gap then sb + mk.gap else sb) + Cut(mk, line) + "\n"
  {
    hide Cut;
  }

  lemma BodySkips(mk: Markers, lines: seq<string>, keep: seq<bool>, i: nat)
    requires i < |lines| == |keep| && !keep[i]
    ensures Body(mk, lines, keep, i + 1) == Body(mk, lines, keep, i)
  {
  }

  lemma NeverFull(mk: Markers, lines: seq<string>, keep: seq<bool>)
    requires |lines| == |keep| && |Body(mk, lines, keep, |lines|)| < MAX_BYTES
    ensures Capped(mk, lines, keep) == Body(mk, lines, keep, |lines|)
  {
  }

  lemma BodyExtends(mk: Markers, lines: seq<string>, keep: seq<bool>, n: nat)
    requires n < |lines| == |keep|
    ensures HasPrefix(Body(mk, lines, keep, n + 1), Body(mk, lines, keep, n))
  {
    hide Piece;
  }

  lemma PrefixTransitive(a: string, b: string, c: string)
    requires HasPrefix(b, a) && HasPrefix(c, b)
    ensures HasPrefix(c, a)
  {
  }

  lemma {:induction false} BodyGrows(mk: Markers, lines: seq<string>, keep: seq<bool>, m: nat, n: nat)
    requires m <= n <= |lines| == |keep|
    ensures HasPrefix(Body(mk, lines, keep, n), Body(mk, lines, keep, m))
  {
    hide Body;
    if m < n {
      BodyGrows(mk, lines, keep, m, n - 1);
      BodyExtends(mk, lines, keep, n - 1);
      PrefixTransitive(Body(mk, lines, keep, m), Body(mk, lines, keep, n - 1), Body(mk, lines, keep, n));
    }
  }

  lemma CappedHere(mk: Markers, lines: seq<string>, keep: seq<bool>, m: nat)
    requires 0 < m <= |lines| == |keep|
    requires |Body(mk, lines, keep, m - 1)| < MAX_BYTES <= |Body(mk, lines, keep, m)|
    ensures Capped(mk, lines, keep) == Body(mk, lines, keep, m) + mk.capped
  {
    hide Body, FullAt;
    BodyGrows(mk, lines, keep, m, |lines|);
    var f := FullAtIsLeast(mk, lines, keep, |lines|);
    if f < m { BodyGrows(mk, lines, keep, f, m - 1); }
    if f > m { BodyGrows(mk, lines, keep, m, f - 1); }
  }

  // ----- How long it is -----

  /** The cap, one more line with its markers, and the closing marker; or the two chunks and their marker. */
  function LongestOutput(mk: Markers): nat {
    var byLines, inlined := MAX_BYTES + |mk.gap| + MAX_LINE + |mk.cut| + |mk.capped|, 2 * CHUNK + |mk.inlined|;
    if byLines < inlined then inlined else byLines
  }

  lemma FullBodyIsBounded(mk: Markers, lines: seq<string>, keep: seq<bool>, m: nat)
    requires 0 < m <= |lines| == |keep| && !Reaches(mk, lines, keep, m - 1)
    ensures |Body(mk, lines, keep, m)| <= MAX_BYTES + |mk.gap| + MAX_LINE + |mk.cut|
  {
    assert |Piece(mk, lines, keep, m - 1)| <= |mk.gap| + MAX_LINE + |mk.cut| + 1;
  }

  lemma CappedIsBounded(mk: Markers, lines: seq<string>, keep: seq<bool>)
    requires |lines| == |keep|
    ensures |Capped(mk, lines, keep)| <= LongestOutput(mk)
  {
    hide Body;
    if Reaches(mk, lines, keep, |lines|) {
      var m := FullAtIsLeast(mk, lines, keep, |lines|);
      hide Reaches, FullAt;
      FullBodyIsBounded(mk, lines, keep, m);
    }
  }

  /** No input makes the output longer than a fixed length. */
  lemma OutputIsBounded(mk: Markers, fails: string -> bool, content: string)
    ensures |Extract(mk, fails, content)| <= LongestOutput(mk)
  {
    hide Capped, Keeps, Mask, Split;
    if |content| >= TEN_KB {
      CappedIsBounded(mk, Split(content), Mask(fails, Split(content)));
    }
  }

  /** The kept lines alone reach the cap. */
  predicate OverCap(mk: Markers, fails: string -> bool, content: string) {
    var lines := Split(content);
    |content| >= TEN_KB && |lines| > 5 && Reaches(mk, lines, Mask(fails, lines), |lines|)
  }

  /** The closing marker is put behind a text that has reached the cap already: the output is longer than the cap
      exactly when the kept lines reach it. */
  lemma CapExceededIff(mk: Markers, fails: string -> bool, content: string)
    requires mk.capped != "" && |mk.inlined| <= MAX_BYTES - 2 * CHUNK
    ensures |Extract(mk, fails, content)| > MAX_BYTES <==> OverCap(mk, fails, content)
  {
    hide Mask, Split, Body, FullAt;
    var lines := Split(content);
    if |content| >= TEN_KB && |lines| > 5 {
      CappedLength(mk, lines, Mask(fails, lines));
    }
  }

  lemma CappedLength(mk: Markers, lines: seq<string>, keep: seq<bool>)
    requires |lines| == |keep| && mk.capped != ""
    ensures |Capped(mk, lines, keep)| > MAX_BYTES <==> Reaches(mk, lines, keep, |lines|)
  {
    hide Body, FullAt;
    if Reaches(mk, lines, keep, |lines|) {
      var m := FullAtIsLeast(mk, lines, keep, |lines|);
    }
  }

  /** The numbers of the code. */
  lemma InspectorLengths()
    ensures var mk := InspectorMarkers();
      mk.capped != "" && |mk.inlined| <= MAX_BYTES - 2 * CHUNK && LongestOutput(mk) == 36990
  {
  }

  /** With the markers of the code: never more than 36990 bytes, and more than 32 KiB exactly when the kept lines
      reach 32 KiB. */
  lemma InspectorBounds(fails: string -> bool, content: string)
    ensures |Extract(InspectorMarkers(), fails, content)| <= 36990
    ensures |Extract(InspectorMarkers(), fails, content)| > MAX_BYTES <==> OverCap(InspectorMarkers(), fails, content)
  {
    hide *;
    InspectorLengths();
    OutputIsBounded(InspectorMarkers(), fails, content);
    CapExceededIff(InspectorMarkers(), fails, content);
  }

  // ----- What it contains -----

  /** The kept lines with their numbers, in order. */
  function Chosen(lines: seq<string>, keep: seq<bool>, n: nat): seq<(nat, string)>
    requires n <= |lines| == |keep|
  {
    if n == 0 then []
    else if keep[n - 1] then Chosen(lines, keep, n - 1) + [(n - 1, lines[n - 1])]
    else Chosen(lines, keep, n - 1)
  }

  /** The numbers increase and stay below n. */
  predicate Ascending(ks: seq<(nat, string)>, n: nat) {
    && (forall i :: 0 <= i < |ks| ==> ks[i].0 < n)
    && (forall i, j :: 0 <= i < j < |ks| ==> ks[i].0 < ks[j].0)
  }

  lemma AscendingSnoc(ks: seq<(nat, string)>, n: nat, line: string)
    requires Ascending(ks, n)
    ensures Ascending(ks, n + 1) && Ascending(ks + [(n, line)], n + 1)
  {
    var longer := ks + [(n, line)];
    forall i, j | 0 <= i < j < |longer| ensures longer[i].0 < longer[j].0 {
      assert longer[i] == ks[i];
      if j < |ks| { assert longer[j] == ks[j]; }
    }
  }

  lemma NoneAscending()
    ensures Ascending([], 0)
  {
  }

  lemma {:induction false} ChosenInOrder(lines: seq<string>, keep: seq<bool>, n: nat)
    requires n <= |lines| == |keep|
    ensures Ascending(Chosen(lines, keep, n), n)
  {
    hide Ascending;
    if n == 0 {
      NoneAscending();
    } else {
      ChosenInOrder(lines, keep, n - 1);
      AscendingSnoc(Chosen(lines, keep, n - 1), n - 1, lines[n - 1]);
    }
  }

  /** Exactly the kept lines are chosen. */
  lemma {:induction false} ChosenAreKept(lines: seq<string>, keep: seq<bool>, n: nat, k: nat, line: string)
    requires n <= |lines| == |keep|
    ensures (k, line) in Chosen(lines, keep, n) <==> k < n && keep[k] && line == lines[k]
    decreases n
  {
    if n > 0 { ChosenAreKept(lines, keep, n - 1, k, line); }
  }

  function NextAfter(ks: seq<(nat, string)>): nat {
    if ks == [] then 0 else ks[|ks| - 1].0 + 1
  }

  /** The chosen lines, each cut and ended by a newline, with a gap marker where the numbers are not consecutive. */
  function Listed(mk: Markers, ks: seq<(nat, string)>): string {
    if ks == [] then ""
    else
      var n := |ks| - 1;
      Listed(mk, ks[..n]) + Framed(mk, ks[n].0 != NextAfter(ks[..n]), ks[n].1)
  }

  lemma NextChosen(lines: seq<string>, keep: seq<bool>, n: nat)
    requires n <= |lines| == |keep|
    ensures NextAfter(Chosen(lines, keep, n)) != n <==> n > 0 && !keep[n - 1]
  {
    hide Listed;
    hide Ascending;
    ChosenBelow(lines, keep, n);
  }

  lemma ChosenBelow(lines: seq<string>, keep: seq<bool>, n: nat)
    requires n <= |lines| == |keep|
    ensures n > 0 && Chosen(lines, keep, n - 1) != [] ==>
              var before := Chosen(lines, keep, n - 1); before[|before| - 1].0 < n - 1
  {
    hide Chosen;
    if n > 0 { ChosenInOrder(lines, keep, n - 1); }
  }

  lemma ListedSnoc(mk: Markers, ks: seq<(nat, string)>, k: nat, line: string)
    ensures Listed(mk, ks + [(k, line)]) == Listed(mk, ks) + Framed(mk, k != NextAfter(ks), line)
  {
    assert (ks + [(k, line)])[..|ks|] == ks;
  }

  lemma BodyStep(mk: Markers, lines: seq<string>, keep: seq<bool>, n: nat)
    requires n < |lines| == |keep|
    ensures keep[n] ==> Body(mk, lines, keep, n + 1) ==
                        Body(mk, lines, keep, n) + Framed(mk, n > 0 && !keep[n - 1], lines[n])
    ensures !keep[n] ==> Body(mk, lines, keep, n + 1) == Body(mk, lines, keep, n)
  {
    hide Framed;
  }

  lemma ListedStep(mk: Markers, lines: seq<string>, keep: seq<bool>, n: nat)
    requires n < |lines| == |keep|
    ensures keep[n] ==> Listed(mk, Chosen(lines, keep, n + 1)) ==
                        Listed(mk, Chosen(lines, keep, n)) + Framed(mk, n > 0 && !keep[n - 1], lines[n])
    ensures !keep[n] ==> Chosen(lines, keep, n + 1) == Chosen(lines, keep, n)
  {
    hide Framed, Listed, NextAfter;
    if keep[n] {
      NextChosen(lines, keep, n);
      ListedSnoc(mk, Chosen(lines, keep, n), n, lines[n]);
    }
  }

  /** Unless the cap is hit, the output is the kept lines in order, and nothing else but gap markers between them. */
  lemma {:induction false} BodyListsChosen(mk: Markers, lines: seq<string>, keep: seq<bool>, n: nat)
    requires n <= |lines| == |keep|
    ensures Body(mk, lines, keep, n) == Listed(mk, Chosen(lines, keep, n))
    decreases n
  {
    hide *;
    if n == 0 {
      NoLinesNoText(mk, lines, keep);
    } else {
      BodyListsChosen(mk, lines, keep, n - 1);
      BodyStep(mk, lines, keep, n - 1);
      ListedStep(mk, lines, keep, n - 1);
    }
  }

  /** The line-based output in full: m lines are listed.  All of them unless the cap is hit; otherwise the list is the
      shortest that reaches the cap, and the closing marker follows. */
  lemma OutputListsKept(mk: Markers, fails: string -> bool, content: string) returns (m: nat)
    requires |content| >= TEN_KB && |Split(content)| > 5
    ensures m <= |Split(content)|
    ensures var lines := Split(content); var listed := Listed(mk, Chosen(lines, Mask(fails, lines), m));
      || (m == |lines| && |listed| < MAX_BYTES && Extract(mk, fails, content) == listed)
      || (|listed| >= MAX_BYTES && Extract(mk, fails, content) == listed + mk.capped
          && m > 0 && |Listed(mk, Chosen(lines, Mask(fails, lines), m - 1))| < MAX_BYTES)
  {
    hide Body, Listed, Mask, Chosen, FullAt, Split;
    var lines := Split(content);
    var keep := Mask(fails, lines);
    m := |lines|;
    if Reaches(mk, lines, keep, |lines|) {
      m := FullAtIsLeast(mk, lines, keep, |lines|);
      BodyListsChosen(mk, lines, keep, m - 1);
    }
    BodyListsChosen(mk, lines, keep, m);
  }

  predicate AllShort(lines: seq<string>) {
    forall k :: 0 <= k < |lines| ==> |lines[k]| <= MAX_LINE
  }

  predicate AllTrue(keep: seq<bool>) {
    forall k :: 0 <= k < |keep| ==> keep[k]
  }

  lemma {:induction false} AllKept(mk: Markers, lines: seq<string>, keep: seq<bool>, n: nat)
    requires 0 < n <= |lines| == |keep| && AllTrue(keep) && AllShort(lines)
    ensures Body(mk, lines, keep, n) == Join(lines[..n]) + "\n"
    decreases n
  {
    hide *;
    JoinOne(lines[n - 1]);
    KeptLine(mk, lines, keep, n);
    if n == 1 {
      NoLinesNoText(mk, lines, keep);
      NothingChosen(mk, lines, keep);
      assert lines[..1] == [lines[0]];
    } else {
      AllKept(mk, lines, keep, n - 1);
      assert lines[..n] == lines[..n - 1] + [lines[n - 1]];
      JoinConcat(lines[..n - 1], [lines[n - 1]]);
      assert Join(lines[..n - 1]) + "\n" + (lines[n - 1] + "\n") == Join(lines[..n - 1]) + "\n" + lines[n - 1] + "\n";
    }
  }

  lemma NothingChosen(mk: Markers, lines: seq<string>, keep: seq<bool>)
    requires |lines| == |keep|
    ensures Listed(mk, Chosen(lines, keep, 0)) == ""
  {
  }

  lemma KeptLine(mk: Markers, lines: seq<string>, keep: seq<bool>, n: nat)
    requires 0 < n <= |lines| == |keep| && AllTrue(keep) && AllShort(lines)
    ensures Body(mk, lines, keep, n) == Body(mk, lines, keep, n - 1) + (lines[n - 1] + "\n")
  {
    assert Piece(mk, lines, keep, n - 1) == lines[n - 1] + "\n";
  }

  lemma EdgesCoverAll(fails: string -> bool, lines: seq<string>)
    requires |lines| <= 2 * EDGE
    ensures AllTrue(Mask(fails, lines))
  {
    hide NearAnchor;
  }

  /** Of a text of at most 100 lines, none of them overlong, all lines are kept. */
  lemma ShortTextIsKept(mk: Markers, fails: string -> bool, content: string)
    requires |Split(content)| <= 2 * EDGE && AllShort(Split(content))
    ensures Body(mk, Split(content), Mask(fails, Split(content)), |Split(content)|) == content + "\n"
  {
    hide *;
    var lines := Split(content);
    EdgesCoverAll(fails, lines);
    AllKept(mk, lines, Mask(fails, lines), |lines|);
    assert lines[..|lines|] == lines;
    JoinSplit(content);
  }

  /** Such a text passes whole, with one newline more, exactly up to the cap. */
  lemma ShortTextPasses(mk: Markers, fails: string -> bool, content: string)
    requires |content| >= TEN_KB && 5 < |Split(content)| <= 2 * EDGE && AllShort(Split(content))
    ensures |content| + 1 < MAX_BYTES ==> Extract(mk, fails, content) == content + "\n"
    ensures OverCap(mk, fails, content) <==> |content| + 1 >= MAX_BYTES
  {
    hide Mask, Body, Split, AllShort, FullAt;
    ShortTextIsKept(mk, fails, content);
  }

  /** n lines of a thousand letters each. */
  function Thousands(n: nat): seq<string> {
    seq(n, _ => seq(1000, _ => 'x'))
  }

  lemma {:induction false} ThousandsLength(lines: seq<string>, n: nat)
    requires lines == Thousands(n) && n > 0
    ensures |Join(lines)| == 1001 * n - 1
    decreases n
  {
    if n == 1 {
      JoinOne(lines[0]);
      assert lines == [lines[0]];
    } else {
      assert lines[1..] == Thousands(n - 1);
      ThousandsLength(lines[1..], n - 1);
      JoinCons(lines[0], lines[1..]);
      assert lines == [lines[0]] + lines[1..];
    }
  }

  /** A text that is cut above the documented 32 KiB: 33 lines of a thousand letters. */
  lemma CapExceeded(fails: string -> bool)
    ensures |Extract(InspectorMarkers(), fails, Join(Thousands(33)))| > MAX_BYTES
  {
    hide Join, Split, OverCap, Extract, InspectorMarkers;
    var lines := Thousands(33);
    ThousandsLength(lines, 33);
    SplitJoin(lines);
    ShortTextPasses(InspectorMarkers(), fails, Join(lines));
    InspectorBounds(fails, Join(lines));
  }

  /** Below 10 KiB nothing is cut. */
  lemma SmallContentIsKept(mk: Markers, fails: string -> bool, content: string)
    requires |content| < 10 * 1024
    ensures Extract(mk, fails, content) == content
  {
  }

  /** Few but huge lines: the first and the last 4096 bytes, and one marker between them. */
  lemma FewLines(mk: Markers, fails: string -> bool, content: string)
    requires |content| >= 10 * 1024 && |Split(content)| <= 5
    ensures var r := Extract(mk, fails, content);
      && |r| == 2 * 4096 + |mk.inlined|
      && r[..4096] == content[..4096]
      && r[4096..4096 + |mk.inlined|] == mk.inlined
      && r[4096 + |mk.inlined|..] == content[|content| - 4096..]
  {
    hide Split, Capped, Mask;
  }

  ghost function FailingLines(fails: string -> bool, lines: seq<string>): set<int> {
    set m | 0 <= m < |lines| && fails(lines[m])
  }

  lemma OneMoreLine(fails: string -> bool, lines: seq<string>, line: string)
    ensures FailingLines(fails, lines + [line]) == FailingLines(fails, lines) + if fails(line) then {|lines|} else {}
  {
    var all := lines + [line];
    assert forall m :: 0 <= m < |lines| ==> all[m] == lines[m];
    assert all[|lines|] == line;
  }

  /** Failures counts the lines that report a failure. */
  lemma {:induction false} FailuresCount(fails: string -> bool, lines: seq<string>)
    ensures Failures(fails, lines) == |FailingLines(fails, lines)|
    decreases |lines|
  {
    if lines != [] {
      var n := |lines| - 1;
      FailuresCount(fails, lines[..n]);
      assert n !in FailingLines(fails, lines[..n]);
      OneMoreLine(fails, lines[..n], lines[n]);
      assert lines == lines[..n] + [lines[n]];
    }
  }

  /** Which lines are kept, in numbers: the first and last 50, and 15 lines before to 35 lines after each line that
      reports a failure and is among the first 20 to do so. */
  lemma KeepsMeans(fails: string -> bool, lines: seq<string>, k: int)
    ensures Keeps(fails, lines, k) <==>
            || k < 50 || k >= |lines| - 50
            || exists m :: 0 <= m < |lines| && fails(lines[m]) && Failures(fails, lines[..m + 1]) <= 20
                           && m - 15 <= k <= m + 35
  {
    hide Failures;
    if exists m :: 0 <= m < |lines| && fails(lines[m]) && Failures(fails, lines[..m + 1]) <= 20 && m - 15 <= k <= m + 35 {
      var m :| 0 <= m < |lines| && fails(lines[m]) && Failures(fails, lines[..m + 1]) <= 20 && m - 15 <= k <= m + 35;
      assert Anchor(fails, lines, m);
    }
  }

  /** How a kept line is written: up to 4096 bytes as it is, otherwise its first 4096 bytes and a marker. */
  lemma CutMeans(mk: Markers, line: string)
    ensures |line| <= 4096 ==> Framed(mk, false, line) == line + "\n" && Framed(mk, true, line) == mk.gap + line + "\n"
    ensures |line| > 4096 ==> Framed(mk, false, line) == line[..4096] + mk.cut + "\n"
    ensures Framed(mk, true, line) == mk.gap + Framed(mk, false, line)
  {
    assert "" + Cut(mk, line) == Cut(mk, line);
  }
}
