/**
What reaches the terminal over a whole run of runStream, for every frame sequence and every moment at
which the watchdog may fire.  StreamRun.Run writes exactly Transcript; the theorems are about that.
*/
module Delivery {
  import opened Wrappers
  import opened GoText
  import opened StorageLog
  import opened Pipeline
  import opened CommandStream

  /** All bytes written, to either stream, in the order they were written. */
  function AllBytes(ws: seq<Write>): string {
    if ws == [] then "" else AllBytes(ws[..|ws| - 1]) + ws[|ws| - 1].bytes
  }

  /** The bytes written to one stream. */
  function BytesOn(fd: Fd, ws: seq<Write>): string {
    if ws == [] then ""
    else
      var w := ws[|ws| - 1];
      BytesOn(fd, ws[..|ws| - 1]) + if w.fd == fd then w.bytes else ""
  }

  lemma OneWrite(fd: Fd, w: Write)
    ensures AllBytes([w]) == w.bytes
    ensures BytesOn(fd, [w]) == if w.fd == fd then w.bytes else ""
  {
    assert [w][..0] == [];
  }

  lemma BytesNext(fd: Fd, ws: seq<Write>, w: Write, all: seq<Write>)
    requires all == ws + [w]
    ensures AllBytes(all) == AllBytes(ws) + w.bytes
    ensures BytesOn(fd, all) == BytesOn(fd, ws) + if w.fd == fd then w.bytes else ""
  {
    assert all[..|ws|] == ws;
  }

  lemma {:induction false} BytesConcat(fd: Fd, a: seq<Write>, b: seq<Write>)
    ensures AllBytes(a + b) == AllBytes(a) + AllBytes(b)
    ensures BytesOn(fd, a + b) == BytesOn(fd, a) + BytesOn(fd, b)
  {
    if b == [] {
      assert a + b == a;
    } else {
      hide *;
      var n := |b| - 1;
      var before, w := b[..n], b[n];
      BytesConcat(fd, a, before);
      BytesNext(fd, a + before, w, a + b);
      BytesNext(fd, before, w, b);
      Associative(AllBytes(a), AllBytes(before), w.bytes);
      Associative(BytesOn(fd, a), BytesOn(fd, before), if w.fd == fd then w.bytes else "");
    }
  }

  lemma {:induction false} PassWritesDeliver(fd: Fd, fs: seq<Frame>)
    ensures AllBytes(PassWrites(fs)) == Received(fs)
    ensures BytesOn(fd, PassWrites(fs)) == ReceivedOn(fd, fs)
  {
    if fs != [] {
      var f := fs[|fs| - 1];
      PassWritesDeliver(fd, fs[..|fs| - 1]);
      var w := Write(FdOf(f), f.payload);
      OneWrite(fd, w);
      BytesConcat(fd, PassWrites(fs[..|fs| - 1]), if Carries(f) then [w] else []);
    }
  }

  lemma {:induction false} ReceivedSplit(fs: seq<Frame>, k: nat)
    requires k <= |fs|
    ensures Received(fs) == Received(fs[..k]) + Received(fs[k..])
  {
    if k == |fs| {
      assert fs[..k] == fs && fs[k..] == [];
    } else {
      var n := |fs| - 1;
      assert fs[..n][..k] == fs[..k] && fs[..n][k..] == fs[k..][..n - k];
      ReceivedSplit(fs[..n], k);
    }
  }

  function PieceOn(fd: Fd, f: Frame): string {
    if Carries(f) && FdOf(f) == fd then f.payload else ""
  }

  lemma ReceivedOnNext(fd: Fd, fs: seq<Frame>, f: Frame, all: seq<Frame>)
    requires all == fs + [f]
    ensures ReceivedOn(fd, all) == ReceivedOn(fd, fs) + PieceOn(fd, f)
  {
    assert all[..|fs|] == fs;
  }

  lemma NothingReceivedOn(fd: Fd)
    ensures ReceivedOn(fd, []) == ""
  {
  }

  lemma {:induction false} ReceivedOnSplit(fd: Fd, early: seq<Frame>, late: seq<Frame>)
    ensures ReceivedOn(fd, early + late) == ReceivedOn(fd, early) + ReceivedOn(fd, late)
  {
    hide *;
    if late == [] {
      NothingReceivedOn(fd);
      assert early + late == early;
    } else {
      var n := |late| - 1;
      var before, f := late[..n], late[n];
      ReceivedOnSplit(fd, early, before);
      ReceivedOnNext(fd, early + before, f, early + late);
      ReceivedOnNext(fd, before, f, late);
      Associative(ReceivedOn(fd, early), ReceivedOn(fd, before), PieceOn(fd, f));
    }
  }

  lemma Associative(a: string, b: string, c: string)
    ensures (a + b) + c == a + (b + c)
  {
  }

  lemma {:induction false} ReceivedByStream(fs: seq<Frame>)
    ensures |Received(fs)| == |ReceivedOn(Out, fs)| + |ReceivedOn(Err, fs)|
  {
    if fs != [] { ReceivedByStream(fs[..|fs| - 1]); }
  }

  /** The in-memory buffers hold everything exactly as long as everything fits the limit. */
  lemma {:induction false} BufferedExactlyWithinLimit(fs: seq<Frame>)
    ensures |Received(fs)| <= MAX_MEMORY_BUFFER <==>
            Buffered(fs) == Buffers(ReceivedOn(Out, fs), ReceivedOn(Err, fs))
  {
    ReceivedByStream(fs);
    if fs != [] {
      ReceivedByStream(fs[..|fs| - 1]);
      BufferedExactlyWithinLimit(fs[..|fs| - 1]);
    }
  }

  lemma MemoryWritesDeliver(fd: Fd, b: Buffers)
    ensures BytesOn(fd, MemoryWrites(b)) == b.On(fd)
  {
    var out := if b.out != "" then [Write(Out, b.out)] else [];
    var err := if b.err != "" then [Write(Err, b.err)] else [];
    BytesConcat(fd, out, err);
    assert |out| == 1 ==> out[..0] == [];
    assert |err| == 1 ==> err[..0] == [];
  }

  /** A newline is added only where the outcome does not already end in one. */
  function WithNewline(s: string): string {
    if HasSuffix(s, "\n") then s else s + "\n"
  }

  /** At most one byte is added, and only a newline that is missing. */
  lemma WithNewlineMeans(s: string)
    ensures s != "" && s[|s| - 1] == '\n' ==> WithNewline(s) == s
    ensures s == "" || s[|s| - 1] != '\n' ==> WithNewline(s) == s + "\n"
  {
  }

  lemma OutcomeDeliver(o: Outcome)
    ensures AllBytes(OutcomeWrites(o)) == WithNewline(o.output)
  {
    var w := Write(Out, o.output);
    OneWrite(Out, w);
    if !HasSuffix(o.output, "\n") {
      OneWrite(Out, Write(Out, "\n"));
      BytesConcat(Out, [w], [Write(Out, "\n")]);
    }
  }

  /** A run with a log that can be read.  The time stamp is RFC 3339, so it has no newline; the command may have any
      number of lines. */
  predicate ReadableLog(setup: Setup) {
    setup.Logged? && setup.readable && '\n' !in setup.time
  }

  /** What the pipeline answers at the EXIT frame of a logged run. */
  function ExitOutcome(config: Config, fs: seq<Frame>, ending: Ending): Result<Outcome, ReadError> {
    var received := Received(Handled(fs));
    Processed(config, ClosedData(config.setup, received, ExitCode(config, fs, ending)), |received|)
  }

  /** Exactly once, in arrival order, when the watchdog has fired: if and only if the log replayed was intact. */
  lemma FiredRunDelivers(config: Config, fs: seq<Frame>, ending: Ending, watchdog: nat)
    requires ReadableLog(config.setup) && Fires(fs, watchdog)
    ensures AllBytes(Transcript(config, fs, ending, watchdog)) == Received(Handled(fs))
       <==> OpenLogIntact(config.setup.cmd, config.setup.time, Received(Handled(fs)[..watchdog]))
  {
    hide OpenLogIntact, ReadPayload, AllBytes, Received, PassWrites, Header, ExitAt;
    var h := Handled(fs);
    var early, late := h[..watchdog], h[watchdog..];
    var w := Write(Out, ReadPayload(OpenData(config.setup, Received(early))));
    OpenLog(config.setup.cmd, config.setup.time, Received(early));
    BytesConcat(Out, [w], PassWrites(late));
    PassWritesDeliver(Out, late);
    ReceivedSplit(h, watchdog);
    OneWrite(Out, w);
    SameTail(w.bytes, Received(early), Received(late));
  }

  lemma SameTail(a: string, b: string, tail: string)
    ensures a + tail == b + tail <==> a == b
  {
    if a + tail == b + tail {
      assert |a + tail| == |b + tail|;
      assert a == (a + tail)[..|a|] == (b + tail)[..|b|] == b;
    }
  }

  /** Exactly once, in arrival order, when the stream ends or breaks before an EXIT frame: if and only if the command
      is one line. */
  lemma BrokenRunDelivers(config: Config, fs: seq<Frame>, ending: Ending, watchdog: nat)
    requires ReadableLog(config.setup) && !Fires(fs, watchdog) && !Exited(fs)
    ensures AllBytes(Transcript(config, fs, ending, watchdog)) == Received(fs) <==> '\n' !in config.setup.cmd
  {
    hide ReadPayload, AllBytes, Received, Header, Footer, ExitAt;
    assert Handled(fs) == fs;
    LogRoundTrip(config.setup.cmd, config.setup.time, Received(fs), ExitCode(config, fs, ending));
    OneWrite(Out, Write(Out, ReadPayload(ClosedData(config.setup, Received(fs), ExitCode(config, fs, ending)))));
  }

  lemma PipelineAnswers(config: Config, fs: seq<Frame>, ending: Ending, watchdog: nat)
    requires config.setup != Bare && !Fires(fs, watchdog) && Exited(fs) && ExitOutcome(config, fs, ending).Success?
    ensures Transcript(config, fs, ending, watchdog) == OutcomeWrites(ExitOutcome(config, fs, ending).value)
  {
    hide Process, Buffered, Received, OutcomeWrites, ReadPayload, ExitAt;
  }

  /** A newline at the end does not make up for two bytes more in front. */
  lemma LongerInFront(leak: string, s: string)
    requires leak == "" || |leak| >= 2
    ensures WithNewline(leak + s) == WithNewline(s) <==> leak == ""
  {
    if leak == "" { assert leak + s == s; } else { assert |leak + s| >= |s| + 2; }
  }

  /** At an EXIT frame, unless the pipeline says it compressed: every byte once and in order, with at most one newline
      added, if and only if the command is one line.  A raw flush adds no newline. */
  lemma ExitedRunDelivers(config: Config, fs: seq<Frame>, ending: Ending, watchdog: nat)
    requires ReadableLog(config.setup) && !Fires(fs, watchdog) && Exited(fs)
    ensures ExitOutcome(config, fs, ending).Success?
    ensures !ExitOutcome(config, fs, ending).value.compressed ==>
              (AllBytes(Transcript(config, fs, ending, watchdog)) == WithNewline(Received(Handled(fs)))
               <==> '\n' !in config.setup.cmd)
  {
    hide Transcript, OutcomeWrites, AllBytes, Received, ReadPayload, Header, Footer, ExitAt, Leak, WithNewline;
    var cmd, time, received := config.setup.cmd, config.setup.time, Received(Handled(fs));
    FinishedLog(cmd, time, received, ExitCode(config, fs, ending));
    LeakEmptyIffOneLine(cmd, time);
    if '\n' in cmd { LeakLength(cmd, time); }
    LongerInFront(Leak(cmd, time), received);
    PipelineAnswers(config, fs, ending, watchdog);
    OutcomeDeliver(ExitOutcome(config, fs, ending).value);
  }

  /** Under 256 bytes nothing is ever withheld, whatever classifier and summarizer would say. */
  lemma TinyOutputDelivered(config: Config, fs: seq<Frame>, ending: Ending, watchdog: nat)
    requires ReadableLog(config.setup) && !Fires(fs, watchdog) && Exited(fs)
    requires |Received(Handled(fs))| < SHORT_CIRCUIT_MAX_BYTES
    ensures AllBytes(Transcript(config, fs, ending, watchdog)) == WithNewline(Received(Handled(fs)))
       <==> '\n' !in config.setup.cmd
  {
    hide AllBytes, Transcript, Received, ExitAt, WithNewline;
    ExitedRunDelivers(config, fs, ending, watchdog);
  }

  /** Without an evaluator, or with a failing one, a run of up to 16 MiB is delivered to its last byte, again if and only
      if the command is one line. */
  lemma UnadvisedRunDelivers(config: Config, fs: seq<Frame>, ending: Ending, watchdog: nat)
    requires ReadableLog(config.setup) && !Fires(fs, watchdog) && Exited(fs)
    requires config.advice.evaluator.None? || config.advice.evaluator.value.failed
    requires |Received(Handled(fs))| <= 16 * 1024 * 1024
    ensures AllBytes(Transcript(config, fs, ending, watchdog)) == WithNewline(Received(Handled(fs)))
       <==> '\n' !in config.setup.cmd
  {
    hide Process, AllBytes, Transcript, Received, ReadPayload, ExitAt, WithNewline, Header, Footer;
    ExitedRunDelivers(config, fs, ending, watchdog);
    var received := Received(Handled(fs));
    var data := ClosedData(config.setup, received, ExitCode(config, fs, ending));
    NoEvaluatorNoLoss(config.wording, config.advice, config.cmdID, |received|, PipelineLog(config.setup, data));
  }

  // ----- Which stream -----

  lemma OneStream(ws: seq<Write>)
    requires BytesOn(Err, ws) == ""
    ensures BytesOn(Out, ws) == AllBytes(ws)
  {
    if ws != [] {
      OneStream(ws[..|ws| - 1]);
      assert AllBytes(ws[..|ws| - 1]) + "" == AllBytes(ws[..|ws| - 1]);
    }
  }

  lemma OutcomeToStdout(o: Outcome)
    ensures BytesOn(Err, OutcomeWrites(o)) == ""
  {
    var w := Write(Out, o.output);
    OneWrite(Err, w);
    if !HasSuffix(o.output, "\n") {
      OneWrite(Err, Write(Out, "\n"));
      BytesConcat(Err, [w], [Write(Out, "\n")]);
    }
  }

  /** What a readable log or the pipeline gives back goes to stdout; only what is passed through after the watchdog has
      fired goes to the stream it came from. */
  lemma LoggedRunStreams(config: Config, fs: seq<Frame>, ending: Ending, watchdog: nat)
    requires ReadableLog(config.setup)
    ensures BytesOn(Err, Transcript(config, fs, ending, watchdog)) ==
            if Fires(fs, watchdog) then ReceivedOn(Err, Handled(fs)[watchdog..]) else ""
    ensures !Fires(fs, watchdog) ==>
              BytesOn(Out, Transcript(config, fs, ending, watchdog)) == AllBytes(Transcript(config, fs, ending, watchdog))
  {
    hide ReadPayload, AllBytes, Received, PassWrites, Header, Footer, ExitAt, Process, BytesOn, OutcomeWrites, Buffered;
    var h := Handled(fs);
    if Fires(fs, watchdog) {
      var w := Write(Out, ReadPayload(OpenData(config.setup, Received(h[..watchdog]))));
      OneWrite(Err, w);
      BytesConcat(Err, [w], PassWrites(h[watchdog..]));
      PassWritesDeliver(Err, h[watchdog..]);
      assert "" + ReceivedOn(Err, h[watchdog..]) == ReceivedOn(Err, h[watchdog..]);
    } else {
      var data := ClosedData(config.setup, Received(h), ExitCode(config, fs, ending));
      OneWrite(Err, Write(Out, ReadPayload(data)));
      if Processed(config, data, |Received(h)|).Success? {
        OutcomeToStdout(Processed(config, data, |Received(h)|).value);
      }
      OneStream(Transcript(config, fs, ending, watchdog));
    }
  }

  // ----- Without a readable log -----

  /** The frames whose bytes are held in memory: those before the replay, or all of them. */
  function Held(fs: seq<Frame>, watchdog: nat): seq<Frame> {
    if Fires(fs, watchdog) then Handled(fs)[..watchdog] else Handled(fs)
  }

  /** Nothing but memory to replay from: no pipeline, or a log that was refused or cannot be read back in a run that
      ends without an outcome. */
  predicate MemoryOnly(config: Config, fs: seq<Frame>, ending: Ending, watchdog: nat) {
    || config.setup == Bare
    || ((config.setup.LogRefused? || (config.setup.Logged? && !config.setup.readable))
        && (Fires(fs, watchdog) || !Exited(fs) || ExitOutcome(config, fs, ending).Failure?))
  }

  /** Each stream got exactly the bytes that belong to it. */
  predicate StreamsComplete(ws: seq<Write>, fs: seq<Frame>) {
    BytesOn(Out, ws) == ReceivedOn(Out, Handled(fs)) && BytesOn(Err, ws) == ReceivedOn(Err, Handled(fs))
  }

  /** Without a readable log each stream gets exactly its own bytes if and only if what had to be held in
      memory fits the limit; beyond it, output is lost. */
  lemma MemoryRunDelivers(config: Config, fs: seq<Frame>, ending: Ending, watchdog: nat)
    requires MemoryOnly(config, fs, ending, watchdog)
    ensures StreamsComplete(Transcript(config, fs, ending, watchdog), fs)
       <==> |Received(Held(fs, watchdog))| <= MAX_MEMORY_BUFFER
  {
    hide Transcript, MemoryOnly, Buffered, BytesOn, ReceivedOn, Received, Held, Handled;
    BufferedExactlyWithinLimit(Held(fs, watchdog));
    MemoryStream(Out, config, fs, ending, watchdog);
    MemoryStream(Err, config, fs, ending, watchdog);
  }

  /** What arrives after the replay. */
  function Late(fs: seq<Frame>, watchdog: nat): seq<Frame> {
    if Fires(fs, watchdog) then Handled(fs)[watchdog..] else []
  }

  lemma MemoryTranscript(config: Config, fs: seq<Frame>, ending: Ending, watchdog: nat)
    requires MemoryOnly(config, fs, ending, watchdog)
    ensures Transcript(config, fs, ending, watchdog)
         == MemoryWrites(Buffered(Held(fs, watchdog))) + PassWrites(Late(fs, watchdog))
    ensures Held(fs, watchdog) + Late(fs, watchdog) == Handled(fs)
  {
    hide Process, Buffered, Received, MemoryWrites, ReadPayload, ExitAt, Header, Footer;
  }

  lemma MemoryStream(fd: Fd, config: Config, fs: seq<Frame>, ending: Ending, watchdog: nat)
    requires MemoryOnly(config, fs, ending, watchdog)
    ensures BytesOn(fd, Transcript(config, fs, ending, watchdog)) == ReceivedOn(fd, Handled(fs))
       <==> Buffered(Held(fs, watchdog)).On(fd) == ReceivedOn(fd, Held(fs, watchdog))
  {
    hide *;
    var held, late := Held(fs, watchdog), Late(fs, watchdog);
    var b := Buffered(held);
    MemoryTranscript(config, fs, ending, watchdog);
    MemoryWritesDeliver(fd, b);
    BytesConcat(fd, MemoryWrites(b), PassWrites(late));
    PassWritesDeliver(fd, late);
    ReceivedOnSplit(fd, held, late);
    SameTail(b.On(fd), ReceivedOn(fd, held), ReceivedOn(fd, late));
  }

  // ----- When the log file could not be created -----

  /** The pipeline answered, without claiming compression: what it was given to read is what is printed. */
  predicate AnsweredRaw(config: Config, fs: seq<Frame>, ending: Ending, watchdog: nat) {
    && !Fires(fs, watchdog) && Exited(fs)
    && ExitOutcome(config, fs, ending).Success? && !ExitOutcome(config, fs, ending).value.compressed
  }

  /** Then what is printed is the latest log, another command's, whatever the run's own frames carried. */
  lemma RefusedLogPrintsForeignOutput(config: Config, fs: seq<Frame>, ending: Ending, watchdog: nat)
    requires config.setup.LogRefused? && AnsweredRaw(config, fs, ending, watchdog)
    ensures config.setup.latest.Some?
    ensures AllBytes(Transcript(config, fs, ending, watchdog)) == WithNewline(ReadPayload(config.setup.latest.value))
  {
    hide Transcript, OutcomeWrites, AllBytes, Received, ReadPayload, Header, Footer, ExitAt, WithNewline;
    PipelineAnswers(config, fs, ending, watchdog);
    OutcomeDeliver(ExitOutcome(config, fs, ending).value);
  }

  /** A tiny run always comes to that, if there is a latest log. */
  lemma TinyRefusedRun(config: Config, fs: seq<Frame>, ending: Ending, watchdog: nat)
    requires config.setup.LogRefused? && !Fires(fs, watchdog) && Exited(fs)
    requires |Received(Handled(fs))| < SHORT_CIRCUIT_MAX_BYTES
    ensures AnsweredRaw(config, fs, ending, watchdog) <==> config.setup.latest.Some?
    ensures MemoryOnly(config, fs, ending, watchdog) <==> config.setup.latest.None?
  {
    hide Received, ReadPayload, ExitAt;
  }

  /** The pipeline answered with a summary, a notice or a first megabyte. */
  predicate AnsweredCompressed(config: Config, fs: seq<Frame>, ending: Ending, watchdog: nat) {
    && !Fires(fs, watchdog) && Exited(fs)
    && ExitOutcome(config, fs, ending).Success? && ExitOutcome(config, fs, ending).value.compressed
  }

  /** The run's own output arrived: stream by stream where memory was flushed, and as one text where the pipeline
      answered. */
  predicate OwnOutputArrived(config: Config, fs: seq<Frame>, ending: Ending, watchdog: nat) {
    if MemoryOnly(config, fs, ending, watchdog) then StreamsComplete(Transcript(config, fs, ending, watchdog), fs)
    else AllBytes(Transcript(config, fs, ending, watchdog)) == WithNewline(Received(Handled(fs)))
  }

  /** A refused run whose outcome is not compressed delivers its own output exactly when it falls back to memory and
      what was held fits, or when the latest log happens to hold the same output. */
  lemma RefusedRunDelivers(config: Config, fs: seq<Frame>, ending: Ending, watchdog: nat)
    requires config.setup.LogRefused? && !AnsweredCompressed(config, fs, ending, watchdog)
    ensures OwnOutputArrived(config, fs, ending, watchdog) <==>
            if MemoryOnly(config, fs, ending, watchdog) then |Received(Held(fs, watchdog))| <= MAX_MEMORY_BUFFER
            else config.setup.latest.Some? &&
                 WithNewline(ReadPayload(config.setup.latest.value)) == WithNewline(Received(Handled(fs)))
  {
    hide AllBytes, Transcript, StreamsComplete, ExitOutcome, Fires, Exited, Received, Handled, Held, ReadPayload, WithNewline;
    if MemoryOnly(config, fs, ending, watchdog) {
      MemoryRunDelivers(config, fs, ending, watchdog);
    } else {
      RefusedLogPrintsForeignOutput(config, fs, ending, watchdog);
    }
  }
}
