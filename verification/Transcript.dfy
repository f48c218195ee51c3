/**
 * What a task session puts on the wire, and what the submitter makes of it.
 */
module Transcript {
  import opened Bytes
  import opened Common
  import opened Framing

  /** A wait status: a normal exit, or death by a signal (the low seven bits of the status word). */
  datatype Status = Exited(code: Byte) | Signaled(signal: Signal)
  type Signal = s: int | 1 <= s < 128 witness 1

  const SIGKILL: Signal := 9

  /** What the shell would report; zero only for a child that itself exited with zero. */
  function ExitCode(s: Status): (code: Byte)
    ensures code == 0 <==> s == Exited(0)
  {
    match s
    case Exited(code) => code
    case Signaled(signal) => 128 + signal
  }

  /** A child process: the bytes its pipe yields before end-of-file (or a read error), and how it ends. */
  datatype Child = Child(output: seq<Byte>, status: Status)

  /**
   * What handling one task comes to on a given node: whether the temporary source could be written, what the
   * compiler does (none when its pipe could not be made, which skips compilation), and what the binary does.
   */
  datatype Job = Job(sourceWritable: bool, compile: Option<Child>, run: Child)

  predicate CompileFails(job: Job) {
    job.compile.Some? && ExitCode(job.compile.value.status) != 0
  }

  function CompileOutput(job: Job): seq<Byte> {
    if job.compile.Some? then job.compile.value.output else []
  }

  /** Compiler output, then, if the compiler succeeded, program output. */
  function JobOutput(job: Job): seq<Byte> {
    if CompileFails(job) then CompileOutput(job) else CompileOutput(job) + job.run.output
  }

  /** The compiler's code when that is not zero, otherwise the program's. */
  function JobCode(job: Job): Byte {
    if CompileFails(job) then ExitCode(job.compile.value.status) else ExitCode(job.run.status)
  }

  /**
   * Which output and code that is, child by child: without a compiler the program's; with a compiler that was killed
   * or did not exit with zero the compiler's; otherwise the compiler's messages, then the program's output, and the
   * program's code. A child that exits has the code it exits with, a killed one 128 more than its signal.
   */
  lemma JobByChildren(job: Job)
    ensures match job
            case Job(_, None, Child(output, Exited(c))) => JobOutput(job) == output && JobCode(job) == c
            case Job(_, None, Child(output, Signaled(s))) => JobOutput(job) == output && JobCode(job) == 128 + s
            case Job(_, Some(Child(messages, Signaled(s))), _) => JobOutput(job) == messages && JobCode(job) == 128 + s
            case Job(_, Some(Child(messages, Exited(e))), Child(output, status)) =>
              if e != 0 then JobOutput(job) == messages && JobCode(job) == e
              else
                match status
                case Exited(c) => JobOutput(job) == messages + output && JobCode(job) == c
                case Signaled(s) => JobOutput(job) == messages + output && JobCode(job) == 128 + s
  {
    if job.compile == None {
      assert [] + job.run.output == job.run.output;
    }
  }

  // ------------------------------------------------------------ the worker's messages

  // what one read of the pipe returns
  type Chunk = c: seq<Byte> | 1 <= |c| <= OUTPUT_BUF_SIZE witness [0]

  function Flatten(chunks: seq<Chunk>): seq<Byte> {
    if chunks == [] then [] else chunks[0] + Flatten(chunks[1..])
  }

  function OutputFrames(chunks: seq<Chunk>): (fs: seq<Frame>)
    ensures |fs| == |chunks|
  {
    seq(|chunks|, i requires 0 <= i < |chunks| => Frame(MSG_OUTPUT, chunks[i]))
  }

  function DoneFrame(code: Byte): Frame {
    Frame(MSG_TASK_DONE, BE32(code))
  }

  function Messages(chunks: seq<Chunk>, code: Byte): seq<Frame> {
    OutputFrames(chunks) + [DoneFrame(code)]
  }

  /** `fs` is a complete conversation about `job`, however its output was cut into chunks. */
  ghost predicate IsTranscript(job: Job, fs: seq<Frame>) {
    if job.sourceWritable
    then exists chunks: seq<Chunk> :: fs == Messages(chunks, JobCode(job)) && Flatten(chunks) == JobOutput(job)
    else fs == []
  }

  lemma TranscriptOf(job: Job, chunks: seq<Chunk>)
    requires job.sourceWritable && Flatten(chunks) == JobOutput(job)
    ensures IsTranscript(job, Messages(chunks, JobCode(job)))
  {}

  // ------------------------------------------------------------ the submitter's reading

  datatype Outcome = Outcome(printed: seq<Byte>, result: Option<int>)

  function DoneCode(payload: Payload): int {
    if |payload| >= 4 then AsInt32(FromBE32(payload[..4])) else 0
  }

  /** Print MSG_OUTPUT payloads, stop at MSG_TASK_DONE, ignore every other kind; no result if the frames run out. */
  function ReadFrames(fs: seq<Frame>): Outcome {
    if fs == [] then Outcome([], None)
    else if fs[0].kind == MSG_OUTPUT then
      var o := ReadFrames(fs[1..]);
      Outcome(fs[0].payload + o.printed, o.result)
    else if fs[0].kind == MSG_TASK_DONE then Outcome([], Some(DoneCode(fs[0].payload)))
    else ReadFrames(fs[1..])
  }

  /** Without a MSG_TASK_DONE (type 8) among the first frames, the rest is read as if it came alone. */
  lemma {:induction false} ReadOn(fs: seq<Frame>, more: seq<Frame>)
    requires forall i :: 0 <= i < |fs| ==> fs[i].kind != 8
    ensures ReadFrames(fs).result == None
    ensures ReadFrames(fs + more) == Outcome(ReadFrames(fs).printed + ReadFrames(more).printed, ReadFrames(more).result)
  {
    if fs == [] {
      assert fs + more == more;
    } else {
      assert (fs + more)[1..] == fs[1..] + more;
      ReadOn(fs[1..], more);
    }
  }

  /** Type 7 is printed, type 8 ends the reading with its code, anything else is passed over. */
  lemma ReadFirst(f: Frame, more: seq<Frame>)
    ensures f.kind == 7 ==> ReadFrames([f]) == Outcome(f.payload, None)
    ensures f.kind == 8 ==> ReadFrames([f] + more) == Outcome([], Some(DoneCode(f.payload)))
    ensures f.kind != 7 && f.kind != 8 ==> ReadFrames([f]) == Outcome([], None)
  {
    assert ([f] + more)[0] == f;
    assert [f][1..] == [];
    assert f.payload + [] == f.payload;
  }

  /** A code is four bytes, the most significant first, in two's complement; with fewer bytes it is zero. */
  lemma CodeBytes(p: Payload)
    ensures |p| < 4 ==> DoneCode(p) == 0
    ensures |p| >= 4 ==>
              DoneCode(p)
              == 16777216 * (if p[0] < 128 then p[0] else p[0] - 256) + 65536 * (p[1] as int) + 256 * (p[2] as int)
                 + p[3]
  {
    if |p| >= 4 {
      HostOrder(p[..4]);
    }
  }

  /** What receive_output returns: the code of MSG_TASK_DONE, or -1 when the stream ends without one. */
  function ReturnCode(o: Outcome): int {
    if o.result.Some? then o.result.value else -1
  }

  // ------------------------------------------------------------ when -1 is not a failure

  ghost predicate NoDone(fs: seq<Frame>) {
    forall i :: 0 <= i < |fs| ==> fs[i].kind != MSG_TASK_DONE
  }

  ghost predicate FirstDone(fs: seq<Frame>, i: int) {
    0 <= i < |fs| && fs[i].kind == MSG_TASK_DONE && forall j :: 0 <= j < i ==> fs[j].kind != MSG_TASK_DONE
  }

  // (int32_t)-1 on the wire
  const ALL_ONES: seq<Byte> := [0xFF, 0xFF, 0xFF, 0xFF]

  predicate StartsWithOnes(payload: Payload) {
    |payload| >= 4 && payload[..4] == ALL_ONES
  }

  lemma DoneCodeMinusOne(payload: Payload)
    ensures DoneCode(payload) == -1 <==> StartsWithOnes(payload)
  {
    if |payload| >= 4 {
      var b := payload[..4];
      BE32Onto(b);
      assert b[..2] == [b[0], b[1]] && b[2..] == [b[2], b[3]];
    }
  }

  /** The result is decided by the first MSG_TASK_DONE, whatever else is in the stream. */
  lemma {:induction false} DecidedByFirstDone(fs: seq<Frame>)
    ensures ReadFrames(fs).result == None <==> NoDone(fs)
    ensures forall i :: FirstDone(fs, i) ==> ReadFrames(fs).result == Some(DoneCode(fs[i].payload))
  {
    if fs != [] {
      DecidedByFirstDone(fs[1..]);
      if fs[0].kind != MSG_TASK_DONE {
        assert forall i :: FirstDone(fs, i) ==> FirstDone(fs[1..], i - 1);
      }
    }
  }

  lemma {:induction false} FirstDoneExists(fs: seq<Frame>) returns (i: nat)
    requires !NoDone(fs)
    ensures FirstDone(fs, i)
  {
    var init := fs[..|fs| - 1];
    if NoDone(init) {
      i := |fs| - 1;
      assert forall j :: 0 <= j < i ==> fs[j] == init[j];
    } else {
      i := FirstDoneExists(init);
    }
  }

  /**
   * For every stream of bytes: receive_output returns -1 although a MSG_TASK_DONE arrived exactly when the first
   * one's payload starts with four bytes 0xFF; in all other cases -1 means that none arrived.
   */
  lemma {:induction false} MinusOneExactly(stream: seq<Byte>)
    ensures var fs := DecodeAll(stream);
            ReturnCode(ReadFrames(fs)) == -1 && !NoDone(fs)
            <==> exists i :: FirstDone(fs, i) && StartsWithOnes(fs[i].payload)
    ensures NoDone(DecodeAll(stream)) ==> ReturnCode(ReadFrames(DecodeAll(stream))) == -1
  {
    var fs := DecodeAll(stream);
    DecidedByFirstDone(fs);
    hide ReadFrames, DecodeAll, DoneCode;
    if !NoDone(fs) {
      var i := FirstDoneExists(fs);
      DoneCodeMinusOne(fs[i].payload);
      assert forall j :: FirstDone(fs, j) ==> j == i;
    }
  }

  /** Such a stream exists: a worker outside the protocol can make a finished task look like a failure. */
  lemma ForgedFailure()
    ensures var fs := DecodeAll(Encode(Frame(MSG_TASK_DONE, ALL_ONES)));
            !NoDone(fs) && ReturnCode(ReadFrames(fs)) == -1
  {
    var f := Frame(MSG_TASK_DONE, ALL_ONES);
    assert Encode(f) == Encode(f) + [];
    DecodeEncode(f, []);
    assert DecodeAll(Encode(f)) == [f] + DecodeAll([]) == [f];
    assert [f][0].kind == MSG_TASK_DONE;
    assert ALL_ONES[..4] == ALL_ONES;
    DoneCodeMinusOne(ALL_ONES);
  }

  // ------------------------------------------------------------ lemmas

  lemma {:induction false} FlattenAppend(a: seq<Chunk>, b: seq<Chunk>)
    ensures Flatten(a + b) == Flatten(a) + Flatten(b)
  {
    if a == [] {
      assert a + b == b;
    } else {
      assert (a + b)[1..] == a[1..] + b;
      FlattenAppend(a[1..], b);
    }
  }

  lemma FlattenOne(c: Chunk)
    ensures Flatten([c]) == c
  {
    assert Flatten([c]) == c + Flatten([]);
  }

  /** One way to cut a byte string into chunks. */
  function Cut(s: seq<Byte>): (chunks: seq<Chunk>)
    ensures Flatten(chunks) == s
  {
    if s == [] then []
    else if |s| <= OUTPUT_BUF_SIZE then
      FlattenOne(s);
      [s]
    else
      FlattenOne(s[..OUTPUT_BUF_SIZE]);
      FlattenAppend([s[..OUTPUT_BUF_SIZE]], Cut(s[OUTPUT_BUF_SIZE..]));
      [s[..OUTPUT_BUF_SIZE]] + Cut(s[OUTPUT_BUF_SIZE..])
  }

  lemma OutputFramesAppend(a: seq<Chunk>, b: seq<Chunk>)
    ensures OutputFrames(a + b) == OutputFrames(a) + OutputFrames(b)
  {}

  lemma DoneRoundTrip(code: Byte)
    ensures DoneCode(DoneFrame(code).payload) == code
  {
    BE32RoundTrip(code);
    assert BE32(code)[..4] == BE32(code);
  }

  lemma {:induction false} ReadMessages(chunks: seq<Chunk>, tail: seq<Frame>)
    ensures var o := ReadFrames(tail);
            ReadFrames(OutputFrames(chunks) + tail) == Outcome(Flatten(chunks) + o.printed, o.result)
  {
    var fs := OutputFrames(chunks) + tail;
    if chunks == [] {
      assert fs == tail;
    } else {
      ReadMessages(chunks[1..], tail);
      assert fs[1..] == OutputFrames(chunks[1..]) + tail;
    }
  }

  lemma TranscriptSendable(job: Job, fs: seq<Frame>)
    requires IsTranscript(job, fs)
    ensures AllSendable(fs)
  {}

  lemma ReadWhole(chunks: seq<Chunk>, code: Byte)
    ensures ReadFrames(Messages(chunks, code)) == Outcome(Flatten(chunks), Some(code as int))
  {
    DoneRoundTrip(code);
    ReadMessages(chunks, [DoneFrame(code)]);
    assert Flatten(chunks) + [] == Flatten(chunks);
  }

  lemma MessagesPart(chunks: seq<Chunk>, code: Byte, j: nat)
    requires j <= |chunks|
    ensures Messages(chunks, code)[..j] == OutputFrames(chunks[..j])
  {
    forall i | 0 <= i < j
      ensures Messages(chunks, code)[..j][i] == OutputFrames(chunks[..j])[i]
    {}
  }

  lemma FlattenPart(chunks: seq<Chunk>, j: nat)
    requires j <= |chunks|
    ensures IsPrefix(Flatten(chunks[..j]), Flatten(chunks))
  {
    assert chunks == chunks[..j] + chunks[j..];
    FlattenAppend(chunks[..j], chunks[j..]);
  }

  lemma ReadPart(chunks: seq<Chunk>, code: Byte, j: nat)
    requires j <= |chunks|
    ensures var o := ReadFrames(Messages(chunks, code)[..j]);
            IsPrefix(o.printed, Flatten(chunks)) && o.result == None
  {
    MessagesPart(chunks, code, j);
    assert OutputFrames(chunks[..j]) == OutputFrames(chunks[..j]) + [];
    ReadMessages(chunks[..j], []);
    assert Flatten(chunks[..j]) + [] == Flatten(chunks[..j]);
    FlattenPart(chunks, j);
  }

  /**
   * End to end: whatever chunks the output was read in, and at whatever byte the connection stops, the submitter
   * prints a prefix of the job's output; it gets a result exactly when the whole conversation arrives; and then
   * it has printed everything and the result is the job's code, between 0 and 255.
   */
  lemma EndToEnd(job: Job, fs: seq<Frame>, k: nat)
    requires IsTranscript(job, fs)
    ensures var o := ReadFrames(DecodeAll(Carried(EncodeAll(fs), k)));
            && IsPrefix(o.printed, JobOutput(job))
            && (o.result.Some? <==> job.sourceWritable && k >= |EncodeAll(fs)|)
            && (o.result.Some? ==> o.printed == JobOutput(job) && o.result.value == JobCode(job))
  {
    TranscriptSendable(job, fs);
    CutStream(fs, k);
    AllComplete(fs, k);
    var j := CompleteFrames(fs, k);
    if job.sourceWritable {
      var code := JobCode(job);
      var chunks: seq<Chunk> :| fs == Messages(chunks, code) && Flatten(chunks) == JobOutput(job);
      if j == |fs| {
        assert fs[..j] == fs;
        ReadWhole(chunks, code);
      } else {
        ReadPart(chunks, code, j);
      }
    }
  }

  /** A transcript that arrives whole shows the submitter what the children did, and the right one's code. */
  lemma WholeSession(job: Job, fs: seq<Frame>)
    requires IsTranscript(job, fs) && job.sourceWritable
    ensures ReadFrames(DecodeAll(EncodeAll(fs)))
            == match job
               case Job(_, None, Child(output, Exited(c))) => Outcome(output, Some(c))
               case Job(_, None, Child(output, Signaled(s))) => Outcome(output, Some(128 + s))
               case Job(_, Some(Child(messages, Signaled(s))), _) => Outcome(messages, Some(128 + s))
               case Job(_, Some(Child(messages, Exited(e))), Child(output, status)) =>
                 if e != 0 then Outcome(messages, Some(e))
                 else
                   match status
                   case Exited(c) => Outcome(messages + output, Some(c))
                   case Signaled(s) => Outcome(messages + output, Some(128 + s))
  {
    EndToEnd(job, fs, |EncodeAll(fs)|);
    JobByChildren(job);
  }

  // ------------------------------------------------------------ how much it takes

  lemma {:induction false} FlattenLength(chunks: seq<Chunk>)
    ensures |chunks| <= |Flatten(chunks)|
    ensures |EncodeAll(OutputFrames(chunks))| == HEADER_SIZE * |chunks| + |Flatten(chunks)|
  {
    if chunks != [] {
      FlattenLength(chunks[1..]);
      assert OutputFrames(chunks)[1..] == OutputFrames(chunks[1..]);
    }
  }

  /** A transcript takes at least the output and 12 bytes, and at most nine bytes for each of the output's. */
  lemma TranscriptLength(job: Job, fs: seq<Frame>)
    requires IsTranscript(job, fs) && job.sourceWritable
    ensures |JobOutput(job)| + 12 <= |EncodeAll(fs)| <= 9 * |JobOutput(job)| + 12
  {
    var chunks: seq<Chunk> :| fs == Messages(chunks, JobCode(job)) && Flatten(chunks) == JobOutput(job);
    hide JobOutput, Flatten, EncodeAll, OutputFrames;
    FlattenLength(chunks);
    EncodeAllAppend(OutputFrames(chunks), [DoneFrame(JobCode(job))]);
    EncodeOne(DoneFrame(JobCode(job)));
  }
}
