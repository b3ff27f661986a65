/**
The compression pipeline (fakebash/pipeline.go): decides what an agent gets to see of a finished
command's output.  The classifier, the summarizer and the outcome of every read are inputs, so each
result below holds whatever they answer.
*/
module Pipeline {
  import opened Wrappers
  import opened GoText
  import opened StorageLog

  const MAX_BUFFERED_OUTPUT := 16 * 1024 * 1024
  const ONE_MB := 1024 * 1024
  const HEADER_SLACK := 4096
  const SHORT_CIRCUIT_MAX_BYTES := 256

  datatype Strategy = KeepRaw | DropOnSuccess | ExtractFailure | Summarize | Unrecognized(name: string)

  datatype ModelUsage = ModelUsage(issued: bool, tokens: int)

  const NO_USAGE := ModelUsage(false, 0)

  /** The evaluator's answer; an evaluator that errs still reports what it used. */
  datatype Evaluation = Evaluation(strategy: Strategy, usage: ModelUsage, failed: bool)

  datatype Summary = Summary(text: string, usage: ModelUsage, failed: bool)

  /** The log under the command's id, and whether the read that a summary is compared against, and the
      read whose result is returned, succeed. */
  datatype LogReads = LogReads(data: string, compareOk: bool, returnOk: bool)

  datatype Outcome = Outcome(output: string, jev: ModelUsage, compass: ModelUsage,
                             compressed: bool, truncated: bool)

  datatype ReadError = ReadError

  /** Everything Process depends on besides the command's output. */
  datatype Advice = Advice(bypass: bool, evaluator: Option<Evaluation>, summarizer: Option<Summary>)

  predicate ShouldShortCircuit(totalBytes: int) {
    totalBytes < SHORT_CIRCUIT_MAX_BYTES
  }

  /** The text of the three notices in front of the command id.  Every result below holds for any text. */
  datatype Wording = Wording(compressed: string, dropped: string, overflow: string)

  function FakebashWording(): Wording {
    Wording("[fakebash: output compressed. To view raw output, run: show-output ",
            "[fakebash: command succeeded with exit code 0. Verbose output dropped. To view raw output, run: show-output ",
            "[fakebash: output too large, truncated. To view full raw output, run: show-output ")
  }

  function FormatFooter(w: Wording, cmdID: string): string {
    w.compressed + cmdID + "]"
  }

  function FormatDropOnSuccess(w: Wording, cmdID: string): string {
    w.dropped + cmdID + "]"
  }

  function FormatOverflowFooter(w: Wording, cmdID: string): string {
    w.overflow + cmdID + "]"
  }

  function Raw(log: LogReads, jev: ModelUsage, compass: ModelUsage): Result<Outcome, ReadError> {
    if log.returnOk then Success(Outcome(ReadPayload(log.data), jev, compass, false, false))
    else Failure(ReadError)
  }

  /** The first megabyte of the log behind its header line. */
  function FirstMegabyte(data: string): string {
    var chunk := StripHeader(ReadRange(data, 0, ONE_MB + HEADER_SLACK));
    if |chunk| > ONE_MB then chunk[..ONE_MB] else chunk
  }

  /** The strategy that is followed: without an evaluator, or when it errs, the output is kept. */
  function Decide(evaluator: Option<Evaluation>): Strategy {
    if evaluator.None? || evaluator.value.failed then KeepRaw else evaluator.value.strategy
  }

  function JevUsage(evaluator: Option<Evaluation>): ModelUsage {
    if evaluator.None? then NO_USAGE else evaluator.value.usage
  }

  function CompassUsage(summarizer: Option<Summary>): ModelUsage {
    if summarizer.None? then NO_USAGE else summarizer.value.usage
  }

  predicate Condenses(summarizer: Option<Summary>, log: LogReads) {
    && summarizer.Some? && !summarizer.value.failed && summarizer.value.text != ""
    && log.compareOk && summarizer.value.text != ReadPayload(log.data)
  }

  function Process(w: Wording, advice: Advice, cmdID: string, totalBytes: int, log: LogReads)
    : (r: Result<Outcome, ReadError>)
    // Compressed tells the truth: an outcome that does not claim it is the raw payload.
    ensures r.Success? && !r.value.compressed ==> r.value.output == ReadPayload(log.data)
    // Truncated marks the overflow path and nothing else.
    ensures r.Success? && r.value.truncated ==> r.value.compressed
    ensures r.Success? ==> (r.value.truncated <==> !advice.bypass && totalBytes > MAX_BUFFERED_OUTPUT)
    // Tiny output, and all output under bypass, is returned verbatim whatever the advisers say.
    ensures advice.bypass || ShouldShortCircuit(totalBytes) ==>
              r == if log.returnOk then Success(Outcome(ReadPayload(log.data), NO_USAGE, NO_USAGE, false, false))
                   else Failure(ReadError)
    // A call that was made is billed, even when its summary is thrown away.
    ensures !advice.bypass && SHORT_CIRCUIT_MAX_BYTES <= totalBytes <= MAX_BUFFERED_OUTPUT && r.Success? ==>
              && r.value.jev == JevUsage(advice.evaluator)
              && (Decide(advice.evaluator) !in {KeepRaw, DropOnSuccess} ==>
                    r.value.compass == CompassUsage(advice.summarizer))
    // The raw output is lost only to an explicit decision.
    ensures r.Failure? ==> !log.returnOk
  {
    if advice.bypass || ShouldShortCircuit(totalBytes) then
      Raw(log, NO_USAGE, NO_USAGE)
    else if totalBytes > MAX_BUFFERED_OUTPUT then
      if !log.returnOk then Failure(ReadError)
      else Success(Outcome(FirstMegabyte(log.data) + "\n" + FormatOverflowFooter(w, cmdID),
                           NO_USAGE, NO_USAGE, true, true))
    else
      var jev := JevUsage(advice.evaluator);
      match Decide(advice.evaluator)
      case KeepRaw => Raw(log, jev, NO_USAGE)
      case DropOnSuccess => Success(Outcome(FormatDropOnSuccess(w, cmdID), jev, NO_USAGE, true, false))
      case _ =>
        var compass := CompassUsage(advice.summarizer);
        if Condenses(advice.summarizer, log)
        then Success(Outcome(advice.summarizer.value.text + "\n" + FormatFooter(w, cmdID), jev, compass, true, false))
        else Raw(log, jev, compass)
  }

  // ----- When output is withheld -----

  /** The evaluator itself answered with this strategy. */
  predicate Answered(evaluator: Option<Evaluation>, strategy: Strategy) {
    evaluator.Some? && !evaluator.value.failed && evaluator.value.strategy == strategy
  }

  /** The evaluator itself answered with something other than keeping or dropping. */
  predicate AskedToCondense(evaluator: Option<Evaluation>) {
    evaluator.Some? && !evaluator.value.failed && evaluator.value.strategy != KeepRaw
    && evaluator.value.strategy != DropOnSuccess
  }

  /** The summarizer gave a text that is not empty and not the output itself. */
  predicate Summarized(summarizer: Option<Summary>, log: LogReads) {
    summarizer.Some? && !summarizer.value.failed && summarizer.value.text != "" && log.compareOk
    && summarizer.value.text != ReadPayload(log.data)
  }

  /** An outcome claims compression exactly when the output is oversized, or the evaluator itself answered to drop it, or
      it answered neither to keep nor to drop it and there is a summary; without an evaluator, or with a failing one,
      nothing up to 16 MiB is withheld. */
  lemma CompressedIff(w: Wording, advice: Advice, cmdID: string, totalBytes: int, log: LogReads)
    requires Process(w, advice, cmdID, totalBytes, log).Success?
    ensures Process(w, advice, cmdID, totalBytes, log).value.compressed <==>
            && !advice.bypass && totalBytes >= 256
            && (|| totalBytes > 16 * 1024 * 1024
                || Answered(advice.evaluator, DropOnSuccess)
                || (AskedToCondense(advice.evaluator) && Summarized(advice.summarizer, log)))
  {
    hide FirstMegabyte, ReadPayload, FormatOverflowFooter, FormatDropOnSuccess, FormatFooter;
  }

  /** What the agent gets in each case below the overflow. */
  lemma OutputOf(w: Wording, advice: Advice, cmdID: string, totalBytes: int, log: LogReads)
    requires totalBytes <= 16 * 1024 * 1024 && Process(w, advice, cmdID, totalBytes, log).Success?
    ensures var o := Process(w, advice, cmdID, totalBytes, log).value;
            && (!o.compressed ==> o.output == ReadPayload(log.data))
            && (o.compressed && Answered(advice.evaluator, DropOnSuccess) ==> o.output == w.dropped + cmdID + "]")
            && (o.compressed && AskedToCondense(advice.evaluator) ==>
                  o.output == advice.summarizer.value.text + "\n" + (w.compressed + cmdID + "]"))
            && !o.truncated
  {
    hide FirstMegabyte, ReadPayload, FormatOverflowFooter;
  }

  /** Without an evaluator, or with a failing one, the raw payload is returned or the read has failed. */
  lemma NoEvaluatorNoLoss(w: Wording, advice: Advice, cmdID: string, totalBytes: int, log: LogReads)
    requires totalBytes <= 16 * 1024 * 1024 && (advice.evaluator.None? || advice.evaluator.value.failed)
    ensures var r := Process(w, advice, cmdID, totalBytes, log);
            && (r.Success? <==> log.returnOk)
            && (r.Success? ==> !r.value.compressed && r.value.output == ReadPayload(log.data))
  {
    hide FirstMegabyte, ReadPayload, FormatOverflowFooter;
  }

  /** Every model call that was made is billed, whatever becomes of its answer, and no other. */
  lemma BilledUsage(w: Wording, advice: Advice, cmdID: string, totalBytes: int, log: LogReads)
    requires Process(w, advice, cmdID, totalBytes, log).Success?
    ensures var o := Process(w, advice, cmdID, totalBytes, log).value;
            var asked := !advice.bypass && 256 <= totalBytes <= 16 * 1024 * 1024;
            && (asked && advice.evaluator.Some? ==> o.jev == advice.evaluator.value.usage)
            && (!asked || advice.evaluator.None? ==> o.jev == ModelUsage(false, 0))
            && (asked && AskedToCondense(advice.evaluator) && advice.summarizer.Some? ==>
                  o.compass == advice.summarizer.value.usage)
            && (!asked || !AskedToCondense(advice.evaluator) || advice.summarizer.None? ==>
                  o.compass == ModelUsage(false, 0))
  {
    hide FirstMegabyte, ReadPayload, FormatOverflowFooter, FormatDropOnSuccess, FormatFooter;
  }

  // ----- The overflow -----

  /** What a range read of a megabyte and the slack leaves of an oversized log with header line h. */
  function VisiblePart(h: string, payload: string): string
    requires |payload| > MAX_BUFFERED_OUTPUT
  {
    if |h| <= HEADER_SLACK then payload[..ONE_MB]
    else if |h| <= ONE_MB + HEADER_SLACK then payload[..ONE_MB + HEADER_SLACK - |h|]
    else h[..ONE_MB]
  }

  /** The shape of a header line. */
  predicate HeaderLine(h: string) {
    HasPrefix(h, HEADER_MARK) && h[|h| - 1] == '\n' && '\n' !in h[..|h| - 1]
  }

  /** The header up to its first newline, which for a one-line command is all of it. */
  function FirstLine(cmd: string, time: string): string {
    Header(cmd, time)[..IndexByte(Header(cmd, time), '\n') + 1]
  }

  lemma FirstLineIsHeaderLine(cmd: string, time: string)
    ensures HeaderLine(FirstLine(cmd, time)) && Header(cmd, time) == FirstLine(cmd, time) + Leak(cmd, time)
  {
    hide Header;
    HeaderShape(cmd, time);
    CutHeader(Header(cmd, time));
  }

  lemma NewlineBehindMark(h: string, i: nat)
    requires HasPrefix(h, HEADER_MARK) && i < |h| && h[i] == '\n'
    ensures i >= |HEADER_MARK|
  {
    assert '\n' !in HEADER_MARK;
    assert forall k :: 0 <= k < |HEADER_MARK| ==> h[k] == h[..|HEADER_MARK|][k];
  }

  lemma PrefixOfCut(h: string, n: nat, pat: string)
    requires HasPrefix(h, pat) && |pat| <= n <= |h|
    ensures HasPrefix(h[..n], pat)
  {
    assert h[..n][..|pat|] == h[..|pat|];
  }

  lemma CutAtFirst(h: string, i: nat)
    requires i < |h| && h[i] == '\n' && forall k :: 0 <= k < i ==> h[k] != '\n'
    ensures var line := h[..i + 1]; |line| == i + 1 && line[i] == '\n' && '\n' !in line[..i] && h == line + h[i + 1..]
  {
  }

  lemma HeaderLineIs(h: string, i: nat)
    requires |h| == i + 1 && HasPrefix(h, HEADER_MARK) && h[i] == '\n' && '\n' !in h[..i]
    ensures HeaderLine(h)
  {
    hide HasPrefix;
  }

  lemma CutHeader(h: string)
    requires HasPrefix(h, HEADER_MARK) && '\n' in h
    ensures var n := IndexByte(h, '\n') + 1; HeaderLine(h[..n]) && h == h[..n] + h[n..]
  {
    hide *;
    var i := IndexByte(h, '\n');
    NewlineBehindMark(h, i);
    PrefixOfCut(h, i + 1, HEADER_MARK);
    CutAtFirst(h, i);
    HeaderLineIs(h[..i + 1], i);
  }

  lemma StripHeaderLine(h: string, rest: string)
    requires HeaderLine(h)
    ensures StripHeader(h + rest) == rest
  {
    assert (h + rest)[..|HEADER_MARK|] == h[..|HEADER_MARK|];
    assert forall k :: 0 <= k < |h| - 1 ==> (h + rest)[k] == h[..|h| - 1][k];
    IndexByteIs(h + rest, '\n', |h| - 1);
  }

  lemma FirstMegabyteOf(h: string, payload: string, footer: string)
    requires HeaderLine(h) && |payload| > MAX_BUFFERED_OUTPUT
    ensures FirstMegabyte(h + payload + footer) == VisiblePart(h, payload)
  {
    var n := ONE_MB + HEADER_SLACK;
    var chunk := (h + payload + footer)[..n];
    assert ReadRange(h + payload + footer, 0, n) == chunk;
    if |h| <= n {
      assert chunk == h + payload[..n - |h|];
      StripHeaderLine(h, payload[..n - |h|]);
    } else {
      assert chunk == h[..n];
      assert forall k :: 0 <= k < n ==> chunk[k] == h[..|h| - 1][k];
    }
  }

  /** What the range read of a run's log leaves: the header's first line is cut off, its other lines are not. */
  lemma FirstMegabyteOfRun(cmd: string, time: string, payload: string, footer: string)
    requires |payload| > MAX_BUFFERED_OUTPUT
    ensures FirstMegabyte(Header(cmd, time) + payload + footer) == VisiblePart(FirstLine(cmd, time), Leak(cmd, time) + payload)
  {
    hide Header, FirstLine, Leak, FirstMegabyte, VisiblePart, HeaderLine;
    FirstLineIsHeaderLine(cmd, time);
    FirstMegabyteOf(FirstLine(cmd, time), Leak(cmd, time) + payload, footer);
    assert FirstLine(cmd, time) + Leak(cmd, time) + payload + footer ==
           FirstLine(cmd, time) + (Leak(cmd, time) + payload) + footer;
  }

  /** When an oversized run shows exactly the first megabyte of its output: the header's first line fits the slack and
      what leaks from its other lines reads like the output (it is nothing for a one-line command); or that line is
      longer than the whole range read and reads like the output it hides. */
  predicate OverflowIntact(cmd: string, time: string, payload: string)
    requires |payload| > MAX_BUFFERED_OUTPUT
  {
    var line := FirstLine(cmd, time);
    || (|line| <= HEADER_SLACK && (Leak(cmd, time) + payload)[..ONE_MB] == payload[..ONE_MB])
    || (|line| > ONE_MB + HEADER_SLACK && line[..ONE_MB] == payload[..ONE_MB])
  }

  lemma VisibleIntact(cmd: string, time: string, payload: string)
    requires |payload| > MAX_BUFFERED_OUTPUT
    ensures VisiblePart(FirstLine(cmd, time), Leak(cmd, time) + payload) == payload[..ONE_MB] <==>
            OverflowIntact(cmd, time, payload)
  {
    hide FirstLine, Leak;
  }

  lemma OverflowOutput(w: Wording, advice: Advice, cmdID: string, totalBytes: int, log: LogReads)
    requires !advice.bypass && totalBytes > MAX_BUFFERED_OUTPUT && log.returnOk
    ensures var r := Process(w, advice, cmdID, totalBytes, log);
            r.Success? && r.value.output == FirstMegabyte(log.data) + "\n" + FormatOverflowFooter(w, cmdID)
  {
    hide FirstMegabyte, FormatOverflowFooter;
  }

  /** The overflow outcome of a run, for a command of any number of lines. */
  function OverflowRun(w: Wording, advice: Advice, cmdID: string, cmd: string, time: string, payload: string,
                       exitCode: int, compareOk: bool): Result<Outcome, ReadError>
  {
    Process(w, advice, cmdID, |payload|, LogReads(Header(cmd, time) + payload + Footer(exitCode), compareOk, true))
  }

  lemma SameBeforeTail(a: string, b: string, tail: string, more: string)
    ensures a + tail + more == b + tail + more <==> a == b
  {
    if a + tail + more == b + tail + more {
      assert |a + tail + more| == |b + tail + more|;
      assert a == (a + tail + more)[..|a|] == (b + tail + more)[..|b|] == b;
    }
  }

  /** Overflow: the agent gets exactly the first megabyte of output and the footer if and only if the run is intact in
      this sense. */
  lemma OverflowKeepsFirstMegabyte(w: Wording, advice: Advice, cmdID: string, cmd: string, time: string,
                                   payload: string, exitCode: int, compareOk: bool)
    requires !advice.bypass && |payload| > MAX_BUFFERED_OUTPUT
    ensures var r := OverflowRun(w, advice, cmdID, cmd, time, payload, exitCode, compareOk);
            && r.Success?
            && (r.value.output == payload[..1024 * 1024] + "\n" + (w.overflow + cmdID + "]")
                <==> OverflowIntact(cmd, time, payload))
  {
    hide Process, FirstMegabyte, VisiblePart, FirstLine, Leak, Header, Footer, OverflowIntact, FormatOverflowFooter;
    var log := LogReads(Header(cmd, time) + payload + Footer(exitCode), compareOk, true);
    OverflowOutput(w, advice, cmdID, |payload|, log);
    FirstMegabyteOfRun(cmd, time, payload, Footer(exitCode));
    VisibleIntact(cmd, time, payload);
    OverflowNotice(w, cmdID);
    SameBeforeTail(FirstMegabyte(log.data), payload[..ONE_MB], "\n", FormatOverflowFooter(w, cmdID));
  }

  lemma OverflowNotice(w: Wording, cmdID: string)
    ensures FormatOverflowFooter(w, cmdID) == w.overflow + cmdID + "]"
  {
  }

  /** For a one-line command only the length of its header counts, that coincidence aside. */
  lemma OneLineOverflow(cmd: string, time: string, payload: string)
    requires |payload| > MAX_BUFFERED_OUTPUT && '\n' !in cmd && '\n' !in time
    ensures var h := Header(cmd, time);
            OverflowIntact(cmd, time, payload) <==>
            |h| <= HEADER_SLACK || (|h| > ONE_MB + HEADER_SLACK && h[..ONE_MB] == payload[..ONE_MB])
  {
    hide Header, FirstLine, Leak;
    LeakEmptyIffOneLine(cmd, time);
    FirstLineIsHeaderLine(cmd, time);
    assert Header(cmd, time) == FirstLine(cmd, time);
    assert Leak(cmd, time) + payload == payload;
  }

  /** A command of two lines whose output is not kept although its header fits: b leaks in front of it. */
  lemma TwoLineOverflow(time: string, payload: string)
    requires |payload| > MAX_BUFFERED_OUTPUT && payload[0] == 'x'
    ensures |FirstLine("a\nb", time)| <= HEADER_SLACK && !OverflowIntact("a\nb", time, payload)
  {
    hide Leak, Header, IndexByte;
    LeakOf("a", "b", time);
    assert "a" + "\n" + "b" == "a\nb";
    TwoLineHeader(time);
    assert (Leak("a\nb", time) + payload)[..ONE_MB][0] == 'b' && payload[..ONE_MB][0] == 'x';
  }

  lemma TwoLineHeader(time: string)
    ensures |FirstLine("a\nb", time)| <= 100
  {
    var line, tail := HEADER_MARK + "a", "\n" + "b | TIME: " + time + "\n";
    assert Header("a\nb", time) == line + tail;
    assert '\n' !in line && tail[0] == '\n';
    IndexByteConcat(line, tail, '\n');
    IndexByteIs(tail, '\n', 0);
  }

  lemma OverflowNoticeLength(cmdID: string)
    ensures |FormatOverflowFooter(FakebashWording(), cmdID)| == 83 + |cmdID|
  {
  }

  /** In the code's own words: an oversized output becomes a megabyte, a newline and a notice of 83 bytes and the
      command id, whatever its size; only a header line between the slack and the range read makes it shorter. */
  lemma OverflowOutputSize(advice: Advice, cmdID: string, cmd: string, time: string, payload: string, exitCode: int,
                           compareOk: bool)
    requires !advice.bypass && |payload| > MAX_BUFFERED_OUTPUT
    ensures var r := OverflowRun(FakebashWording(), advice, cmdID, cmd, time, payload, exitCode, compareOk);
            var n := |FirstLine(cmd, time)|;
            && r.Success?
            && |r.value.output| == 84 + |cmdID| +
               if HEADER_SLACK < n <= ONE_MB + HEADER_SLACK then ONE_MB + HEADER_SLACK - n else ONE_MB
  {
    hide Process, FirstMegabyte, FirstLine, Leak, FakebashWording, FormatOverflowFooter, Header, Footer;
    OverflowNoticeLength(cmdID);
    var log := LogReads(Header(cmd, time) + payload + Footer(exitCode), compareOk, true);
    OverflowOutput(FakebashWording(), advice, cmdID, |payload|, log);
    FirstMegabyteOfRun(cmd, time, payload, Footer(exitCode));
  }
}
