/**
runStream (fakebash/fakebash.go): receives a command's output frame by frame, logs it, and hands it to
the terminal either at the end (through the pipeline) or, once the watchdog has fired, as it arrives.

`watchdog` is the number of frames that are handled before the flag is first seen set; it may be any
number, so a result for every watchdog holds for every moment at which the timer may go off.
*/
module CommandStream {
  import opened Wrappers
  import opened GoText
  import opened StorageLog
  import opened Pipeline

  const MAX_MEMORY_BUFFER := 1024 * 1024

  datatype Fd = Out | Err

  datatype Write = Write(fd: Fd, bytes: string)

  /** One CommandResponse; a type the client does not know is ignored. */
  datatype Frame = Stdout(payload: string) | Stderr(payload: string) | Exit(payload: string) | Unknown(payload: string)

  /** What Recv reports once the frames have run out. */
  datatype Ending = Eof | RecvError

  /** No pipeline at all; a pipeline whose log could not be created (the id is then empty, which names the
      latest finished log, if there is one); or a pipeline with a log, readable or not. */
  datatype Setup =
    | Bare
    | LogRefused(latest: Option<string>)
    | Logged(cmd: string, time: string, readable: bool)

  datatype Config = Config(setup: Setup, cmdID: string, wording: Wording, advice: Advice, atoi: string -> int)

  // ----- Frames -----

  predicate Carries(f: Frame) {
    f.Stdout? || f.Stderr?
  }

  function FdOf(f: Frame): Fd {
    if f.Stdout? then Out else Err
  }

  /** The output bytes of the frames, in arrival order. */
  function Received(fs: seq<Frame>): string {
    if fs == [] then ""
    else
      var f := fs[|fs| - 1];
      Received(fs[..|fs| - 1]) + if Carries(f) then f.payload else ""
  }

  /** The output bytes that belong to one of the two streams. */
  function ReceivedOn(fd: Fd, fs: seq<Frame>): string {
    if fs == [] then ""
    else
      var f := fs[|fs| - 1];
      ReceivedOn(fd, fs[..|fs| - 1]) + if Carries(f) && FdOf(f) == fd then f.payload else ""
  }

  /** Position of the first EXIT frame, or the number of frames. */
  function ExitAt(fs: seq<Frame>): (n: nat)
    ensures n <= |fs|
    ensures n < |fs| ==> fs[n].Exit?
    ensures forall i :: 0 <= i < n ==> !fs[i].Exit?
  {
    if fs == [] || fs[0].Exit? then 0 else 1 + ExitAt(fs[1..])
  }

  predicate Exited(fs: seq<Frame>) {
    ExitAt(fs) < |fs|
  }

  /** The frames before the first EXIT frame: all that is ever handled. */
  function Handled(fs: seq<Frame>): seq<Frame> {
    fs[..ExitAt(fs)]
  }

  /** The flag is loaded once per received frame, the EXIT frame included. */
  predicate Fires(fs: seq<Frame>, watchdog: nat) {
    watchdog < if Exited(fs) then ExitAt(fs) + 1 else |fs|
  }

  function ExitCode(config: Config, fs: seq<Frame>, ending: Ending): int {
    if Exited(fs) then
      var payload := fs[ExitAt(fs)].payload;
      if payload == "" then 0 else config.atoi(payload)
    else if ending.Eof? then 0 else 1
  }

  ghost predicate IsFirstExit(fs: seq<Frame>, i: nat) {
    i < |fs| && fs[i].Exit? && forall j :: 0 <= j < i ==> !fs[j].Exit?
  }

  ghost predicate NoExit(fs: seq<Frame>) {
    forall i :: 0 <= i < |fs| ==> !fs[i].Exit?
  }

  /** The code a run has to report: what the first EXIT frame says, where an empty payload is 0; without an EXIT frame
      0 at the end of the stream and 1 when it breaks. */
  ghost predicate Reports(config: Config, fs: seq<Frame>, ending: Ending, code: int) {
    && (forall i: nat :: IsFirstExit(fs, i) ==> code == if fs[i].payload == "" then 0 else config.atoi(fs[i].payload))
    && (NoExit(fs) ==> code == if ending == Eof then 0 else 1)
  }

  lemma FirstExitAt(fs: seq<Frame>)
    ensures forall i: nat :: IsFirstExit(fs, i) ==> ExitAt(fs) == i
    ensures NoExit(fs) <==> ExitAt(fs) == |fs|
    ensures ExitAt(fs) < |fs| ==> IsFirstExit(fs, ExitAt(fs))
  {
    var n := ExitAt(fs);
    assert n < |fs| ==> fs[n].Exit?;
  }

  lemma ExitCodeReports(config: Config, fs: seq<Frame>, ending: Ending)
    ensures Reports(config, fs, ending, ExitCode(config, fs, ending))
  {
    hide ExitAt;
    FirstExitAt(fs);
  }

  /** Only one code can be reported, so Reports fixes it; and a code sent in decimal is the code reported. */
  lemma ReportedCode(config: Config, fs: seq<Frame>, ending: Ending, code: int, i: nat, c: int)
    requires Reports(config, fs, ending, code)
    ensures code == ExitCode(config, fs, ending)
    ensures IsFirstExit(fs, i) && fs[i] == Exit(Itoa(c)) && config.atoi(Itoa(c)) == c ==> code == c
  {
    hide ExitAt;
    FirstExitAt(fs);
  }

  /** Each kind of frame: output counts for its stream and for the whole, everything else for nothing. */
  lemma ReceivedByKind(fs: seq<Frame>, p: string)
    ensures Received(fs + [Stdout(p)]) == Received(fs) + p && Received(fs + [Stderr(p)]) == Received(fs) + p
    ensures Received(fs + [Exit(p)]) == Received(fs) && Received(fs + [Unknown(p)]) == Received(fs)
    ensures ReceivedOn(Out, fs + [Stdout(p)]) == ReceivedOn(Out, fs) + p
    ensures ReceivedOn(Err, fs + [Stderr(p)]) == ReceivedOn(Err, fs) + p
    ensures ReceivedOn(Err, fs + [Stdout(p)]) == ReceivedOn(Err, fs)
    ensures ReceivedOn(Out, fs + [Stderr(p)]) == ReceivedOn(Out, fs)
  {
    assert forall f: Frame :: (fs + [f])[..|fs|] == fs;
    assert Received(fs) + "" == Received(fs);
    assert ReceivedOn(Out, fs) + "" == ReceivedOn(Out, fs) && ReceivedOn(Err, fs) + "" == ReceivedOn(Err, fs);
  }

  // ----- What is written -----

  datatype Buffers = Buffers(out: string, err: string) {
    function Size(): nat { |out| + |err| }

    function On(fd: Fd): string { if fd.Out? then out else err }

    /** A chunk that would exceed the limit is dropped. */
    function Add(f: Frame): Buffers {
      if !Carries(f) || Size() + |f.payload| > MAX_MEMORY_BUFFER then this
      else if f.Stdout? then this.(out := out + f.payload)
      else this.(err := err + f.payload)
    }
  }

  /** The in-memory buffers after the given frames. */
  function Buffered(fs: seq<Frame>): (b: Buffers)
    ensures b.Size() <= MAX_MEMORY_BUFFER
  {
    if fs == [] then Buffers("", "") else Buffered(fs[..|fs| - 1]).Add(fs[|fs| - 1])
  }

  function PassWrites(fs: seq<Frame>): seq<Write> {
    if fs == [] then []
    else
      var f := fs[|fs| - 1];
      PassWrites(fs[..|fs| - 1]) + if Carries(f) then [Write(FdOf(f), f.payload)] else []
  }

  function MemoryWrites(b: Buffers): seq<Write> {
    (if b.out != "" then [Write(Out, b.out)] else []) + (if b.err != "" then [Write(Err, b.err)] else [])
  }

  /** flushBuffers: the log if there is one that can be read, otherwise the buffers. */
  function FlushWrites(setup: Setup, data: string, b: Buffers): seq<Write> {
    if setup.Logged? && setup.readable then [Write(Out, ReadPayload(data))] else MemoryWrites(b)
  }

  function LogHeader(setup: Setup): string {
    if setup.Logged? then Header(setup.cmd, setup.time) else ""
  }

  /** What the pipeline reads: the command's own log, or the latest one. */
  function PipelineLog(setup: Setup, data: string): LogReads {
    match setup
    case Logged(_, _, readable) => LogReads(data, readable, readable)
    case LogRefused(Some(latest)) => LogReads(latest, true, true)
    case _ => LogReads("", false, false)
  }

  function OutcomeWrites(o: Outcome): seq<Write> {
    [Write(Out, o.output)] + if HasSuffix(o.output, "\n") then [] else [Write(Out, "\n")]
  }

  function Processed(config: Config, data: string, totalBytes: int): Result<Outcome, ReadError> {
    Process(config.wording, config.advice, config.cmdID, totalBytes, PipelineLog(config.setup, data))
  }

  function ExitWrites(config: Config, data: string, totalBytes: int, b: Buffers): seq<Write> {
    if config.setup != Bare && Processed(config, data, totalBytes).Success?
    then OutcomeWrites(Processed(config, data, totalBytes).value)
    else FlushWrites(config.setup, data, b)
  }

  /** The log as it stands when the watchdog's replay reads it. */
  function OpenData(setup: Setup, payload: string): string {
    LogHeader(setup) + payload
  }

  function ClosedData(setup: Setup, payload: string, exitCode: int): string {
    if setup.Logged? then LogHeader(setup) + payload + Footer(exitCode) else ""
  }

  /** The writes of a run whose watchdog never fires: all of them come at its end. */
  function FinalWrites(config: Config, fs: seq<Frame>, ending: Ending): seq<Write> {
    var h := Handled(fs);
    var data := ClosedData(config.setup, Received(h), ExitCode(config, fs, ending));
    if Exited(fs) then ExitWrites(config, data, |Received(h)|, Buffered(h))
    else FlushWrites(config.setup, data, Buffered(h))
  }

  /** All writes of one run, in order. */
  function Transcript(config: Config, fs: seq<Frame>, ending: Ending, watchdog: nat): seq<Write> {
    var h := Handled(fs);
    if Fires(fs, watchdog) then
      FlushWrites(config.setup, OpenData(config.setup, Received(h[..watchdog])), Buffered(h[..watchdog]))
      + PassWrites(h[watchdog..])
    else FinalWrites(config, fs, ending)
  }

  // ----- The receive loop -----

  class StreamRun {
    const config: Config
    const log: LogFile?
    var writes: seq<Write>
    var buffers: Buffers
    var replayed: bool
    var totalBytes: int

    ghost predicate Valid()
      reads this, log
    {
      && buffers.Size() <= MAX_MEMORY_BUFFER
      && (log != null <==> config.setup.Logged?)
      && (log != null ==> log.Valid() && log.header == LogHeader(config.setup))
    }

    ghost function LogData(): string
      reads this, log
    {
      if log == null then "" else log.data
    }

    constructor (config: Config)
      ensures this.config == config
      ensures forall fs, watchdog :: At(fs, watchdog, 0, false)
    {
      this.config := config;
      if config.setup.Logged? {
        log := new LogFile(config.setup.cmd, config.setup.time);
      } else {
        log := null;
      }
      writes, buffers, replayed, totalBytes := [], Buffers("", ""), false, 0;
    }

    method FlushBuffers()
      requires Valid()
      modifies this`writes, this`buffers
      ensures Valid()
      ensures writes == old(writes) + FlushWrites(config.setup, LogData(), old(buffers))
    {
      if log != null && config.setup.readable {
        writes := writes + [Write(Out, ReadPayload(log.data))];
        return;
      }
      if buffers.out != "" {
        writes := writes + [Write(Out, buffers.out)];
        buffers := buffers.(out := "");
      }
      if buffers.err != "" {
        writes := writes + [Write(Err, buffers.err)];
        buffers := buffers.(err := "");
      }
    }

    method ProcessStreamChunk(f: Frame, passthrough: bool)
      requires Valid() && Carries(f) && (log != null ==> !log.finished)
      modifies this`writes, this`buffers, this`totalBytes, log
      ensures Valid()
      ensures totalBytes == old(totalBytes) + |f.payload|
      ensures log != null ==> !log.finished && log.payload == old(log.payload) + f.payload
      ensures writes == if passthrough then old(writes) + [Write(FdOf(f), f.payload)] else old(writes)
      ensures buffers == if passthrough then old(buffers) else old(buffers).Add(f)
    {
      totalBytes := totalBytes + |f.payload|;
      if log != null {
        var _ := log.Append(f.payload);
      }
      if passthrough {
        writes := writes + [Write(FdOf(f), f.payload)];
      } else if buffers.Size() + |f.payload| <= MAX_MEMORY_BUFFER {
        buffers := if f.Stdout? then buffers.(out := buffers.out + f.payload)
                   else buffers.(err := buffers.err + f.payload);
      }
    }

    /** The state in front of frame i, before (`fired` is whether the watchdog was seen set earlier) or
        after the flag is loaded for it: the log holds every byte so far, and the writes are those of the
        replay and of everything after it. */
    ghost predicate At(fs: seq<Frame>, watchdog: nat, i: nat, fired: bool)
      reads this, log
      requires i <= |fs| && (fired ==> watchdog <= i)
    {
      && Valid()
      && (log != null ==> !log.finished && log.payload == Received(fs[..i]))
      && totalBytes == |Received(fs[..i])|
      && replayed == fired
      && (!replayed ==> buffers == Buffered(fs[..i]) && writes == [])
      && (replayed ==> writes == Replayed(config, fs, watchdog, i))
    }

    /** Loads the flag for frame i and replays, once, what arrived before it. */
    method LoadFlag(fs: seq<Frame>, ghost watchdog: nat, i: nat, passthrough: bool)
      requires i <= |fs| && passthrough == (watchdog <= i) && At(fs, watchdog, i, watchdog < i)
      modifies this`writes, this`buffers, this`replayed
      ensures At(fs, watchdog, i, passthrough)
    {
      if passthrough && !replayed {
        ReplayStart(config, fs, i, LogData(), log != null);
        replayed := true;
        FlushBuffers();
      }
    }

    method Finish(exitCode: int)
      requires Valid() && (log != null ==> !log.finished)
      modifies log
      ensures Valid()
      ensures log != null ==> log.finished && log.data == LogHeader(config.setup) + old(log.payload) + Footer(exitCode)
    {
      if log != null {
        log.Finish(exitCode);
      }
    }

    method HandleChunk(fs: seq<Frame>, ghost watchdog: nat, i: nat, passthrough: bool)
      requires i < |fs| && passthrough == (watchdog <= i) && At(fs, watchdog, i, passthrough)
      modifies this`writes, this`buffers, this`totalBytes, log
      ensures At(fs, watchdog, i + 1, passthrough)
    {
      ReceivedStep(fs, i);
      BufferedStep(fs, i);
      if passthrough { PassWritesStep(fs, watchdog, i); }
      if Carries(fs[i]) {
        ProcessStreamChunk(fs[i], passthrough);
      }
    }

    method PrintOutcome(o: Outcome)
      modifies this`writes
      ensures writes == old(writes) + OutcomeWrites(o)
    {
      writes := writes + [Write(Out, o.output)];
      if !HasSuffix(o.output, "\n") {
        writes := writes + [Write(Out, "\n")];
      }
    }

    /** The log, if there is one, holds everything received before the first EXIT frame, and is finished with this
        code. */
    ghost predicate Closed(fs: seq<Frame>, exitCode: int)
      reads this, log
    {
      log != null ==>
        log.finished && log.data == LogHeader(config.setup) + Received(Handled(fs)) + Footer(exitCode)
    }

    method HandleExit(fs: seq<Frame>, ghost ending: Ending, ghost watchdog: nat, i: nat) returns (exitCode: int)
      requires i < |fs| && i == ExitAt(fs) && At(fs, watchdog, i, watchdog <= i)
      modifies this`writes, this`buffers, log
      ensures Valid()
      ensures exitCode == ExitCode(config, fs, ending)
      ensures writes == Transcript(config, fs, ending, watchdog)
      ensures Closed(fs, exitCode)
    {
      TranscriptCases(config, fs, ending, watchdog);
      var payload := fs[i].payload;
      exitCode := if payload == "" then 0 else config.atoi(payload);
      Finish(exitCode);
      if replayed {
        return;
      }
      if config.setup != Bare {
        var r := Processed(config, if log != null then log.data else "", totalBytes);
        if r.Success? {
          PrintOutcome(r.value);
          return;
        }
      }
      FlushBuffers();
    }

    method HandleEnd(fs: seq<Frame>, ending: Ending, ghost watchdog: nat) returns (exitCode: int)
      requires ExitAt(fs) == |fs| && At(fs, watchdog, |fs|, watchdog < |fs|)
      modifies this`writes, this`buffers, log
      ensures Valid()
      ensures exitCode == ExitCode(config, fs, ending)
      ensures writes == Transcript(config, fs, ending, watchdog)
      ensures Closed(fs, exitCode)
    {
      TranscriptCases(config, fs, ending, watchdog);
      exitCode := if ending.Eof? then 0 else 1;
      Finish(exitCode);
      if !replayed {
        FlushBuffers();
      }
    }

    method Run(fs: seq<Frame>, ending: Ending, watchdog: nat) returns (exitCode: int)
      requires At(fs, watchdog, 0, false)
      modifies this, log
      ensures writes == Transcript(config, fs, ending, watchdog)
      ensures exitCode == ExitCode(config, fs, ending)
      ensures Reports(config, fs, ending, exitCode)
      ensures Closed(fs, exitCode)
      ensures buffers.Size() <= MAX_MEMORY_BUFFER
    {
      ExitCodeReports(config, fs, ending);
      var i := 0;
      while i < |fs|
        invariant i <= ExitAt(fs)
        invariant At(fs, watchdog, i, watchdog < i)
      {
        var passthrough := watchdog <= i;
        LoadFlag(fs, watchdog, i, passthrough);
        if fs[i].Exit? {
          exitCode := HandleExit(fs, ending, watchdog, i);
          return;
        }
        HandleChunk(fs, watchdog, i, passthrough);
        i := i + 1;
      }
      exitCode := HandleEnd(fs, ending, watchdog);
    }
  }

  /** The writes after a replay in front of frame `watchdog`, up to frame i. */
  function Replayed(config: Config, fs: seq<Frame>, watchdog: nat, i: nat): seq<Write>
    requires watchdog <= i <= |fs|
  {
    FlushWrites(config.setup, OpenData(config.setup, Received(fs[..watchdog])), Buffered(fs[..watchdog]))
    + PassWrites(fs[watchdog..i])
  }

  lemma ReplayStart(config: Config, fs: seq<Frame>, i: nat, data: string, logged: bool)
    requires i <= |fs| && logged == config.setup.Logged?
    requires logged ==> data == LogHeader(config.setup) + Received(fs[..i]) + ""
    ensures Replayed(config, fs, i, i) == FlushWrites(config.setup, data, Buffered(fs[..i]))
  {
    assert fs[i..i] == [];
    assert logged ==> data == OpenData(config.setup, Received(fs[..i]));
  }

  lemma ReceivedStep(fs: seq<Frame>, i: nat)
    requires i < |fs|
    ensures Received(fs[..i + 1]) == Received(fs[..i]) + if Carries(fs[i]) then fs[i].payload else ""
  {
    assert fs[..i + 1][..i] == fs[..i];
  }

  lemma BufferedStep(fs: seq<Frame>, i: nat)
    requires i < |fs|
    ensures Buffered(fs[..i + 1]) == Buffered(fs[..i]).Add(fs[i])
  {
    assert fs[..i + 1][..i] == fs[..i];
  }

  lemma PassWritesStep(fs: seq<Frame>, from: nat, i: nat)
    requires from <= i < |fs|
    ensures PassWrites(fs[from..i + 1])
         == PassWrites(fs[from..i]) + if Carries(fs[i]) then [Write(FdOf(fs[i]), fs[i].payload)] else []
  {
    assert fs[from..i + 1][..i - from] == fs[from..i];
  }

  /** Transcript, case by case, in terms of the frames themselves. */
  lemma TranscriptCases(config: Config, fs: seq<Frame>, ending: Ending, watchdog: nat)
    ensures Fires(fs, watchdog) ==>
              Transcript(config, fs, ending, watchdog) == Replayed(config, fs, watchdog, ExitAt(fs))
    ensures !Fires(fs, watchdog) ==> Transcript(config, fs, ending, watchdog) == FinalWrites(config, fs, ending)
  {
    if Fires(fs, watchdog) {
      assert Handled(fs)[..watchdog] == fs[..watchdog];
      assert Handled(fs)[watchdog..] == fs[watchdog..ExitAt(fs)];
    }
  }
}
