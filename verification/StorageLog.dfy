/**
The log file one command writes (fakebash/storage.go): a header line, the command's output as it
arrives, and a footer line once the command has ended.  ReadPayload cuts header and footer off again.
*/
module StorageLog {
  import opened GoText

  const HEADER_MARK := "# CMD: "
  const FOOTER_MARK := "\n# EXIT: "

  function Header(cmd: string, time: string): string {
    HEADER_MARK + cmd + " | TIME: " + time + "\n"
  }

  function Footer(exitCode: int): string {
    FOOTER_MARK + Itoa(exitCode) + "\n"
  }

  /** The file behind a storageFile. */
  class LogFile {
    var data: string
    var finished: bool
    ghost const header: string
    ghost var payload: string
    ghost var footer: string

    ghost predicate Valid()
      reads this
    {
      && data == header + payload + footer
      && (!finished ==> footer == "")
    }

    constructor (cmd: string, time: string)
      ensures Valid() && !finished
      ensures header == Header(cmd, time) && payload == "" && data == header
    {
      data := Header(cmd, time);
      finished := false;
      header, payload, footer := Header(cmd, time), "", "";
    }

    /** Refused, without effect, once the file is finished. */
    method Append(chunk: string) returns (ok: bool)
      requires Valid()
      modifies this
      ensures Valid()
      ensures ok == !old(finished) && finished == old(finished) && footer == old(footer)
      ensures payload == if ok then old(payload) + chunk else old(payload)
      ensures !ok ==> data == old(data)
    {
      if finished { return false; }
      data := data + chunk;
      payload := payload + chunk;
      return true;
    }

    /** Writes the footer the first time; every later call changes nothing. */
    method Finish(exitCode: int)
      requires Valid()
      modifies this
      ensures Valid() && finished && payload == old(payload)
      ensures footer == if old(finished) then old(footer) else Footer(exitCode)
      ensures old(finished) ==> data == old(data)
    {
      if finished { return; }
      finished := true;
      data := data + Footer(exitCode);
      footer := Footer(exitCode);
    }
  }

  function StripHeader(data: string): string {
    if HasPrefix(data, HEADER_MARK) && IndexByte(data, '\n') != -1
    then data[IndexByte(data, '\n') + 1..]
    else data
  }

  function StripFooter(data: string): string {
    var i := LastIndex(data, FOOTER_MARK);
    if i != -1 then data[..i] else data
  }

  function ReadPayload(data: string): string {
    StripFooter(StripHeader(data))
  }

  /** At most limit bytes from offset on; a limit of zero or less means all of them. */
  function ReadRange(data: string, offset: int, limit: int): string {
    var from := if offset < 0 then 0 else offset;
    if from >= |data| then ""
    else if limit <= 0 || from + limit > |data| then data[from..]
    else data[from..from + limit]
  }

  /** What is left of the header line after header stripping: the text behind the first newline of the
      command.  It is empty exactly for one-line commands. */
  function Leak(cmd: string, time: string): string {
    Header(cmd, time)[IndexByte(Header(cmd, time), '\n') + 1..]
  }

  ghost predicate Contains(s: string, pat: string) {
    exists i :: OccursAt(s, pat, i)
  }

  lemma LeakEmptyIffOneLine(cmd: string, time: string)
    requires '\n' !in time
    ensures Leak(cmd, time) == "" <==> '\n' !in cmd
  {
    var h := Header(cmd, time);
    assert h[|h| - 1] == '\n';
    assert forall k :: 0 <= k < |cmd| ==> h[|HEADER_MARK| + k] == cmd[k];
    if '\n' !in cmd {
      IndexByteIs(h, '\n', |h| - 1);
    }
  }

  lemma PrefixStays(h: string, rest: string, pat: string)
    requires HasPrefix(h, pat)
    ensures HasPrefix(h + rest, pat)
  {
    assert (h + rest)[..|pat|] == h[..|pat|];
  }

  lemma DropStays(h: string, rest: string, n: nat)
    requires n <= |h|
    ensures (h + rest)[n..] == h[n..] + rest
  {
  }

  lemma StripHeaderAt(data: string)
    requires HasPrefix(data, HEADER_MARK) && '\n' in data
    ensures StripHeader(data) == data[IndexByte(data, '\n') + 1..]
  {
    hide IndexByte, HasPrefix;
  }

  /** Stripping cuts behind the first newline of whatever looks like a header line. */
  lemma StripHeaderOf(h: string, rest: string)
    requires HasPrefix(h, HEADER_MARK) && '\n' in h
    ensures StripHeader(h + rest) == h[IndexByte(h, '\n') + 1..] + rest
  {
    hide *;
    PrefixStays(h, rest, HEADER_MARK);
    IndexByteConcat(h, rest, '\n');
    StripHeaderAt(h + rest);
    DropStays(h, rest, IndexByte(h, '\n') + 1);
  }

  lemma HeaderShape(cmd: string, time: string)
    ensures HasPrefix(Header(cmd, time), HEADER_MARK) && '\n' in Header(cmd, time)
  {
    var h := Header(cmd, time);
    assert h[|h| - 1] == '\n';
    assert h[..|HEADER_MARK|] == HEADER_MARK;
  }

  lemma StripHeaderLeaks(cmd: string, time: string, rest: string)
    ensures StripHeader(Header(cmd, time) + rest) == Leak(cmd, time) + rest
  {
    hide Header, StripHeader;
    HeaderShape(cmd, time);
    StripHeaderOf(Header(cmd, time), rest);
  }

  /** The only newlines of a footer are its first and its last byte. */
  lemma FooterInside(exitCode: int, k: int)
    requires 0 < k < |Footer(exitCode)| - 1
    ensures Footer(exitCode)[k] != '\n'
  {
    if k < |FOOTER_MARK| {
      assert Footer(exitCode)[k] == FOOTER_MARK[k];
    } else {
      assert Footer(exitCode)[k] == Itoa(exitCode)[k - |FOOTER_MARK|];
    }
  }

  lemma FooterHasNoSecondMark(body: string, exitCode: int, j: int)
    requires |body| < j
    ensures !OccursAt(body + Footer(exitCode), FOOTER_MARK, j)
  {
    var s := body + Footer(exitCode);
    if j + |FOOTER_MARK| <= |s| {
      FooterInside(exitCode, j - |body|);
      assert s[j] != '\n';
      assert s[j..j + |FOOTER_MARK|][0] == s[j];
    }
  }

  lemma FooterStarts(exitCode: int)
    ensures HasPrefix(Footer(exitCode), FOOTER_MARK)
  {
    hide Itoa;
  }

  lemma OccursBehind(body: string, tail: string, pat: string)
    requires HasPrefix(tail, pat)
    ensures OccursAt(body + tail, pat, |body|)
  {
    assert (body + tail)[|body|..|body| + |pat|] == tail[..|pat|];
  }

  lemma StripFooterAt(data: string, i: nat)
    requires OccursAt(data, FOOTER_MARK, i) && forall j :: i < j ==> !OccursAt(data, FOOTER_MARK, j)
    ensures i <= |data| && StripFooter(data) == data[..i]
  {
    hide OccursAt;
    assert i <= |data| by { StripBound(data, i); }
  }

  lemma StripBound(data: string, i: nat)
    requires OccursAt(data, FOOTER_MARK, i)
    ensures i <= |data|
  {
  }

  /** Bytes that look like a footer do not matter in a finished file: the last footer is the real one. */
  lemma StripFooterExact(body: string, exitCode: int)
    ensures StripFooter(body + Footer(exitCode)) == body
  {
    hide *;
    var data := body + Footer(exitCode);
    FooterStarts(exitCode);
    OccursBehind(body, Footer(exitCode), FOOTER_MARK);
    forall j | |body| < j ensures !OccursAt(data, FOOTER_MARK, j) {
      FooterHasNoSecondMark(body, exitCode, j);
    }
    StripFooterAt(data, |body|);
    assert data[..|body|] == body;
  }

  /** What a finished log reads back as, whatever was appended to it. */
  lemma FinishedLog(cmd: string, time: string, payload: string, exitCode: int)
    ensures ReadPayload(Header(cmd, time) + payload + Footer(exitCode)) == Leak(cmd, time) + payload
  {
    var rest := payload + Footer(exitCode);
    assert Header(cmd, time) + payload + Footer(exitCode) == Header(cmd, time) + rest;
    StripHeaderLeaks(cmd, time, rest);
    assert Leak(cmd, time) + rest == Leak(cmd, time) + payload + Footer(exitCode);
    StripFooterExact(Leak(cmd, time) + payload, exitCode);
  }

  /** Log round trip: a finished log gives back the appended bytes exactly when the command text is one
      line.  A multi-line command leaks the tail of its own header into the payload. */
  lemma LogRoundTrip(cmd: string, time: string, payload: string, exitCode: int)
    requires '\n' !in time
    ensures ReadPayload(Header(cmd, time) + payload + Footer(exitCode)) == payload <==> '\n' !in cmd
  {
    FinishedLog(cmd, time, payload, exitCode);
    LeakEmptyIffOneLine(cmd, time);
    if '\n' in cmd { assert |Leak(cmd, time) + payload| > |payload|; }
  }

  /** The text leaked from the header, followed by the output, happens to read like the output followed by a footer. */
  predicate Echoes(leak: string, payload: string) {
    HasPrefix(leak + payload, payload) && LastIndex(leak + payload, FOOTER_MARK) == |payload|
  }

  /** When a log that is still open reads back whole: for a one-line command if nothing in it looks like a footer, and
      for any other only by the coincidence of Echoes. */
  ghost predicate OpenLogIntact(cmd: string, time: string, payload: string) {
    if '\n' !in cmd then !Contains(payload, FOOTER_MARK) else Echoes(Leak(cmd, time), payload)
  }

  /** What is left of a text after the footer is cut off is a given text. */
  lemma StripFooterIs(data: string, payload: string)
    ensures StripFooter(data) == payload <==>
            (if LastIndex(data, FOOTER_MARK) == -1 then data == payload
             else HasPrefix(data, payload) && LastIndex(data, FOOTER_MARK) == |payload|)
  {
    hide LastIndex;
  }

  lemma NoMarkIff(data: string)
    ensures LastIndex(data, FOOTER_MARK) == -1 <==> !Contains(data, FOOTER_MARK)
    ensures LastIndex(data, FOOTER_MARK) < |data|
  {
    var i := LastIndex(data, FOOTER_MARK);
    if i != -1 { assert OccursAt(data, FOOTER_MARK, i); }
  }

  /** A log that is still open has no footer, so what looks like one in the output is cut off. */
  lemma OpenLog(cmd: string, time: string, payload: string)
    requires '\n' !in time
    ensures ReadPayload(Header(cmd, time) + payload) == payload <==> OpenLogIntact(cmd, time, payload)
  {
    hide Header, StripHeader, StripFooter, LastIndex, Contains, Leak;
    StripHeaderLeaks(cmd, time, payload);
    LeakEmptyIffOneLine(cmd, time);
    var data := Leak(cmd, time) + payload;
    StripFooterIs(data, payload);
    NoMarkIff(data);
    if '\n' !in cmd {
      assert data == payload;
    } else {
      assert |data| > |payload|;
    }
  }

  lemma LeakOf(first: string, later: string, time: string)
    requires '\n' !in first
    ensures Leak(first + "\n" + later, time) == later + " | TIME: " + time + "\n"
  {
    var line, tail := HEADER_MARK + first, later + " | TIME: " + time + "\n";
    var h := Header(first + "\n" + later, time);
    assert h == line + "\n" + tail;
    assert '\n' !in line by { assert '\n' !in HEADER_MARK; }
    assert h == line + ("\n" + tail);
    IndexByteConcat(line, "\n" + tail, '\n');
  }

  lemma LeakLength(cmd: string, time: string)
    requires '\n' in cmd
    ensures |Leak(cmd, time)| >= 2
  {
    hide Leak, IndexByte;
    var i := IndexByte(cmd, '\n');
    assert cmd == cmd[..i] + "\n" + cmd[i + 1..];
    assert '\n' !in cmd[..i];
    LeakOf(cmd[..i], cmd[i + 1..], time);
  }

  /** Where the round trip fails, this is what comes back: the command's own later lines and the time
      stamp are read as output. */
  lemma MultiLineCommandLeaks(first: string, later: string, time: string, payload: string, exitCode: int)
    requires '\n' !in first
    ensures ReadPayload(Header(first + "\n" + later, time) + payload + Footer(exitCode))
         == later + " | TIME: " + time + "\n" + payload
  {
    LeakOf(first, later, time);
    FinishedLog(first + "\n" + later, time, payload, exitCode);
  }

  /** A range read gives a consecutive part: from the offset (or the start, for a negative one) as many bytes as asked
      for and there are; all of them when the limit is not positive. */
  lemma ReadRangeMeans(data: string, offset: int, limit: int)
    ensures var from := if offset < 0 then 0 else offset; var r := ReadRange(data, offset, limit);
      && (from >= |data| ==> r == "")
      && (from < |data| ==> HasPrefix(data[from..], r))
      && (from < |data| && limit > 0 ==> |r| == if limit < |data| - from then limit else |data| - from)
      && (from < |data| && limit <= 0 ==> |r| == |data| - from)
  {
  }
}
