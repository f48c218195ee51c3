/**
 * The worker: streaming a child's output, compiling and running a task, handling one connection.
 */
module Worker {
  import opened Bytes
  import opened Common
  import opened Framing
  import opened NetUtils
  import opened TaskFile
  import opened Transcript
  import opened LoadMonitor

  datatype PipeResult = Data(chunk: seq<Byte>) | Signalled | Closed

  /** A forked child and the read end of its pipe. */
  class Process {
    var unread: seq<Byte>
    var interrupts: nat
    var status: Status

    constructor Fork(child: Child, interrupts: nat)
      ensures unread == child.output && status == child.status
    {
      this.unread, this.interrupts, this.status := child.output, interrupts, child.status;
    }

    /** read(): as many bytes as the kernel likes, up to `max`. */
    method ReadPipe(max: nat) returns (r: PipeResult)
      requires max >= 1
      modifies this`unread, this`interrupts
      ensures r.Data? ==>
                && 1 <= |r.chunk| <= max
                && old(unread) == r.chunk + unread && interrupts == old(interrupts)
      ensures r.Signalled? ==> unread == old(unread) && interrupts < old(interrupts)
      ensures r.Closed? ==> unread == old(unread) == []
    {
      if
      case interrupts > 0 =>
        interrupts := interrupts - 1;
        r := Signalled;
      case unread == [] =>
        r := Closed;
      case unread != [] =>
        var n: nat :| 1 <= n <= max && n <= |unread|;
        r := Data(unread[..n]);
        unread := unread[n..];
    }

    /** SIGKILL: too late if the child has already ended. */
    method Kill()
      modifies this`status
      ensures status == old(status) || status == Signaled(SIGKILL)
    {
      if * {
        status := Signaled(SIGKILL);
      }
    }
  }

  /** The wire image of a run of output chunks. */
  ghost function Wire(chunks: seq<Chunk>): seq<Byte> {
    EncodeAll(OutputFrames(chunks))
  }

  lemma WireAppend(a: seq<Chunk>, b: seq<Chunk>)
    ensures Wire(a + b) == Wire(a) + Wire(b)
  {
    OutputFramesAppend(a, b);
    EncodeAllAppend(OutputFrames(a), OutputFrames(b));
  }

  lemma WireOne(c: Chunk)
    ensures Wire([c]) == Encode(Frame(MSG_OUTPUT, c))
  {
    assert OutputFrames([c]) == [Frame(MSG_OUTPUT, c)];
    EncodeOne(Frame(MSG_OUTPUT, c));
  }

  lemma OneMoreChunk(chunks: seq<Chunk>, c: Chunk)
    ensures Flatten(chunks + [c]) == Flatten(chunks) + c
    ensures Wire(chunks + [c]) == Wire(chunks) + Encode(Frame(MSG_OUTPUT, c))
  {
    FlattenAppend(chunks, [c]);
    FlattenOne(c);
    WireAppend(chunks, [c]);
    WireOne(c);
  }

  lemma WireMessages(chunks: seq<Chunk>, code: Byte)
    ensures EncodeAll(Messages(chunks, code)) == Wire(chunks) + Encode(DoneFrame(code))
  {
    EncodeAllAppend(OutputFrames(chunks), [DoneFrame(code)]);
    EncodeOne(DoneFrame(code));
  }

  /** Once the connection has broken, what would have followed makes no difference. */
  lemma CarriedFull<T>(s: seq<T>, a: seq<T>, more: seq<T>, n: nat)
    requires |s| + |a| >= n
    ensures Carried(s + (a + more), n) == Carried(s + a, n)
  {
    assert s + (a + more) == s + a + more;
  }

  lemma CarriedFits<T>(s: seq<T>, n: nat)
    ensures |s| <= n ==> Carried(s, n) == s
  {}

  /** The chunks on a broken connection, completed with those the child might still have filled. */
  lemma BreakOff(s: seq<Byte>, chunks: seq<Chunk>, rest: seq<Byte>, n: nat)
    requires |s| + |Wire(chunks)| >= n
    ensures Flatten(chunks + Cut(rest)) == Flatten(chunks) + rest
    ensures Carried(s + Wire(chunks + Cut(rest)), n) == Carried(s + Wire(chunks), n)
    ensures |Wire(chunks + Cut(rest))| >= |Wire(chunks)|
  {
    FlattenAppend(chunks, Cut(rest));
    WireAppend(chunks, Cut(rest));
    CarriedFull(s, Wire(chunks), Wire(Cut(rest)), n);
  }

  lemma Associative<T>(a: seq<T>, b: seq<T>, c: seq<T>)
    ensures a + (b + c) == a + b + c
  {}

  lemma NothingSent(start: seq<Byte>, n: nat)
    requires |start| <= n
    ensures Wire([]) == [] && Flatten([]) == [] && start + Wire([]) == Carried(start + Wire([]), n) == start
  {}

  /** One more chunk on a connection that has so far carried everything. */
  method SendChunk(fd: Socket, buf: Chunk, ghost start: seq<Byte>, ghost chunks: seq<Chunk>) returns (ok: bool)
    requires fd.Valid() && fd.sent == start + Wire(chunks)
    modifies fd`sent, fd`interrupts
    ensures fd.Valid()
    ensures Flatten(chunks + [buf]) == Flatten(chunks) + buf
    ensures ok <==> |start| + |Wire(chunks + [buf])| <= fd.capacity
    ensures fd.sent == Carried(start + Wire(chunks + [buf]), fd.capacity)
    ensures ok ==> fd.sent == start + Wire(chunks + [buf])
  {
    hide Encode, EncodeAll, Wire, Flatten;
    OneMoreChunk(chunks, buf);
    assert fd.sent + Encode(Frame(MSG_OUTPUT, buf)) == start + Wire(chunks + [buf]);
    CarriedFits(start + Wire(chunks + [buf]), fd.capacity);
    ok := SendMsg(fd, MSG_OUTPUT, buf);
  }

  /**
   * Sends the child's whole output as MSG_OUTPUT frames as far as the connection carries them. The code is the
   * child's own unless the connection broke, in which case the child may have been killed.
   */
  method StreamAndWait(fd: Socket, child: Process) returns (exit: Byte, ghost chunks: seq<Chunk>)
    requires fd.Valid()
    modifies fd`sent, fd`interrupts, child
    ensures fd.Valid()
    ensures Flatten(chunks) == old(child.unread)
    ensures forall i :: 0 <= i < |chunks| ==> 1 <= |chunks[i]| <= 4096
    ensures fd.sent == Carried(old(fd.sent) + Wire(chunks), fd.capacity)
    ensures |old(fd.sent)| + |Wire(chunks)| <= fd.capacity ==>
              match old(child.status)
              case Exited(c) => exit == c
              case Signaled(s) => exit == 128 + s
  {
    chunks := [];
    ghost var start, output := fd.sent, child.unread;
    var connected := true;
    NothingSent(start, fd.capacity);
    hide *;
    while connected
      invariant fd.Valid()
      invariant output == Flatten(chunks) + child.unread
      invariant fd.sent == Carried(start + Wire(chunks), fd.capacity)
      invariant connected ==> fd.sent == start + Wire(chunks) && child.status == old(child.status)
      invariant !connected ==> |start| + |Wire(chunks)| > fd.capacity
      decreases connected, |child.unread|, child.interrupts
    {
      var r := child.ReadPipe(OUTPUT_BUF_SIZE);
      match r
      case Signalled => continue;
      case Closed => break;
      case Data(buf) =>
        Associative(Flatten(chunks), buf, child.unread);
        connected := SendChunk(fd, buf, start, chunks);
        chunks := chunks + [buf];
        if !connected {
          child.Kill();
        }
    }
    exit := ExitCode(child.status);
    CodeOf(child.status);
    if !connected {
      BreakOff(start, chunks, child.unread, fd.capacity);
      chunks := chunks + Cut(child.unread);
    }
    ChunkSizes(chunks);
  }

  lemma ChunkSizes(chunks: seq<Chunk>)
    ensures forall i :: 0 <= i < |chunks| ==> 1 <= |chunks[i]| <= 4096
  {}

  lemma CodeOf(status: Status)
    ensures ExitCode(status) == match status case Exited(c) => c case Signaled(s) => 128 + s
  {}

  /** The compiler's output is the beginning of some complete transcript. */
  lemma FromCompilation(job: Job, compiled: seq<Chunk>) returns (fs: seq<Frame>, more: seq<Byte>)
    requires job.sourceWritable && Flatten(compiled) == CompileOutput(job)
    ensures IsTranscript(job, fs)
    ensures EncodeAll(fs) == Wire(compiled) + more
  {
    var code := JobCode(job);
    if CompileFails(job) {
      TranscriptOf(job, compiled);
      fs, more := Messages(compiled, code), Encode(DoneFrame(code));
      WireMessages(compiled, code);
    } else {
      fs, more := FromRun(job, compiled, Cut(job.run.output));
      more := Wire(Cut(job.run.output)) + more;
    }
  }

  /** So are the compiler's output and the program's, when the compiler succeeds. */
  lemma FromRun(job: Job, compiled: seq<Chunk>, ran: seq<Chunk>) returns (fs: seq<Frame>, done: seq<Byte>)
    requires job.sourceWritable && !CompileFails(job)
    requires Flatten(compiled) == CompileOutput(job) && Flatten(ran) == job.run.output
    ensures IsTranscript(job, fs)
    ensures done == Encode(DoneFrame(ExitCode(job.run.status)))
    ensures EncodeAll(fs) == Wire(compiled) + (Wire(ran) + done)
  {
    hide Encode, EncodeAll, Wire, DoneFrame, Flatten, Messages;
    var code := JobCode(job);
    FlattenAppend(compiled, ran);
    TranscriptOf(job, compiled + ran);
    fs, done := Messages(compiled + ran, code), Encode(DoneFrame(code));
    WireMessages(compiled + ran, code);
    WireAppend(compiled, ran);
  }

  /** The worker's last message after a compilation that failed or was killed. */
  lemma AfterCompilation(job: Job, compiled: seq<Chunk>, exit: Byte, start: seq<Byte>, n: nat)
    returns (fs: seq<Frame>)
    requires job.sourceWritable && job.compile.Some? && Flatten(compiled) == CompileOutput(job)
    requires |start| + |Wire(compiled)| <= n ==>
               match job.compile.value.status case Exited(c) => exit == c case Signaled(s) => exit == 128 + s
    requires exit != 0
    ensures IsTranscript(job, fs)
    ensures Carried(start + EncodeAll(fs), n)
         == Carried(Carried(start + Wire(compiled), n) + Encode(DoneFrame(exit)), n)
  {
    var a, done, more := Wire(compiled), Encode(DoneFrame(exit)), [];
    fs, more := FromCompilation(job, compiled);
    if |start| + |a| <= n {
      TranscriptOf(job, compiled);
      fs, more := Messages(compiled, exit), done;
      WireMessages(compiled, exit);
    }
    AfterOne(start, a, done, more, n);
  }

  lemma AfterOne<T>(s: seq<T>, a: seq<T>, b: seq<T>, more: seq<T>, n: nat)
    requires |s| + |a| > n || more == b
    ensures Carried(s + (a + more), n) == Carried(Carried(s + a, n) + b, n)
  {
    CarriedAppend(s + a, b, n);
    assert s + a + b == s + (a + b);
    if |s| + |a| > n {
      CarriedFull(s, a, b, n);
      CarriedFull(s, a, more, n);
    }
  }

  /** The worker's last message after a run. */
  lemma AfterRun(job: Job, compiled: seq<Chunk>, ran: seq<Chunk>, exit: Byte, start: seq<Byte>, n: nat)
    returns (fs: seq<Frame>)
    requires job.sourceWritable && Flatten(compiled) == CompileOutput(job) && Flatten(ran) == job.run.output
    requires |start| + |Wire(compiled)| <= n ==> !CompileFails(job)
    requires |Carried(start + Wire(compiled), n)| + |Wire(ran)| <= n ==>
               match job.run.status case Exited(c) => exit == c case Signaled(s) => exit == 128 + s
    ensures IsTranscript(job, fs)
    ensures Carried(start + EncodeAll(fs), n)
         == Carried(Carried(Carried(start + Wire(compiled), n) + Wire(ran), n) + Encode(DoneFrame(exit)), n)
  {
    hide Encode, EncodeAll, Wire, IsTranscript, DoneFrame, Flatten;
    var a, b, done, more := Wire(compiled), Wire(ran), Encode(DoneFrame(exit)), [];
    var s := Carried(start + a, n);
    if |start| + |a| > n {
      fs, more := FromCompilation(job, compiled);
      AfterOne(start, a, b + done, more, n);
      AfterOne(s, b, done, done, n);
      assert s + (b + done) == s + b + done;
    } else {
      fs, more := FromRun(job, compiled, ran);
      AfterOne(s, b, done, more, n);
      assert start + (a + (b + more)) == s + (b + more);
    }
  }

  /** The early end of compile_and_stream: the compiler's code is all that is left to send. */
  method GiveUp(fd: Socket, monitor: Monitor, job: Job, exit: Byte, ghost start: seq<Byte>, ghost compiled: seq<Chunk>)
    returns (ghost fs: seq<Frame>)
    requires fd.Valid() && job.sourceWritable && job.compile.Some? && Flatten(compiled) == CompileOutput(job)
    requires fd.sent == Carried(start + Wire(compiled), fd.capacity)
    requires exit != 0
    requires |start| + |Wire(compiled)| <= fd.capacity ==>
               match job.compile.value.status case Exited(c) => exit == c case Signaled(s) => exit == 128 + s
    modifies fd`sent, fd`interrupts, monitor`active
    ensures fd.Valid()
    ensures monitor.active == (old(monitor.active) + 0x1_0000_0000 - 1) % 0x1_0000_0000
    ensures IsTranscript(job, fs)
    ensures fd.sent == Carried(start + EncodeAll(fs), fd.capacity)
  {
    hide Encode, EncodeAll, Wire, IsTranscript, Flatten, Header, CompileFails, CompileOutput;
    fs := AfterCompilation(job, compiled, exit, start, fd.capacity);
    var _ := SendMsg(fd, MSG_TASK_DONE, BE32(exit));
    monitor.TaskDone();
  }

  /** The second half of compile_and_stream: runs the program, sends its output and its code. */
  method RunBinary(fd: Socket, monitor: Monitor, job: Job, interrupts: nat,
                   ghost start: seq<Byte>, ghost compiled: seq<Chunk>)
    returns (ghost fs: seq<Frame>)
    requires fd.Valid() && job.sourceWritable && Flatten(compiled) == CompileOutput(job)
    requires fd.sent == Carried(start + Wire(compiled), fd.capacity)
    requires |start| + |Wire(compiled)| <= fd.capacity ==> !CompileFails(job)
    modifies fd`sent, fd`interrupts, monitor`active
    ensures fd.Valid()
    ensures monitor.active == (old(monitor.active) + 0x1_0000_0000 - 1) % 0x1_0000_0000
    ensures IsTranscript(job, fs)
    ensures fd.sent == Carried(start + EncodeAll(fs), fd.capacity)
  {
    hide Encode, EncodeAll, Wire, IsTranscript, Flatten, Header, CompileFails, CompileOutput;
    var binary := new Process.Fork(job.run, interrupts);
    var runExit, ran := StreamAndWait(fd, binary);
    fs := AfterRun(job, compiled, ran, runExit, start, fd.capacity);
    var _ := SendMsg(fd, MSG_TASK_DONE, BE32(runExit));
    monitor.TaskDone();
  }

  lemma WireTellsAll(job: Job, fs: seq<Frame>, start: seq<Byte>, sent: seq<Byte>, n: nat)
    requires IsTranscript(job, fs) && job.sourceWritable && |start| <= n
    requires sent == Carried(start + EncodeAll(fs), n)
    ensures |start| <= |sent|
    ensures |sent| < n ==>
              ReadFrames(DecodeAll(sent[|start|..]))
              == match job
                 case Job(_, None, Child(output, Exited(c))) => Outcome(output, Some(c))
                 case Job(_, None, Child(output, Signaled(s))) => Outcome(output, Some(128 + s))
                 case Job(_, Some(Child(messages, Signaled(s))), _) => Outcome(messages, Some(128 + s))
                 case Job(_, Some(Child(messages, Exited(e))), Child(output, status)) =>
                   if e != 0 then Outcome(messages, Some(e))
                   else
                     match status
                     case Exited(c) => Outcome(messages + output, Some(c))
                     case Signaled(s) => Outcome(messages + output, Some(128 + s))
  {
    if |sent| < n {
      WholeSession(job, fs);
      hide ReadFrames, DecodeAll, EncodeAll;
      assert sent[|start|..] == EncodeAll(fs);
    }
  }

  /**
   * Compile, then run: the wire holds a complete transcript of the job as far as the connection carried it. On every
   * path out the task is counted once in the total and no longer counted as active.
   */
  method CompileThenRun(fd: Socket, monitor: Monitor, job: Job, interrupts: nat) returns (ghost fs: seq<Frame>)
    requires fd.Valid()
    modifies fd`sent, fd`interrupts, monitor
    ensures fd.Valid()
    ensures monitor.active == old(monitor.active) && monitor.total == (old(monitor.total) + 1) % 0x1_0000_0000
    ensures IsTranscript(job, fs)
    ensures fd.sent == Carried(old(fd.sent) + EncodeAll(fs), fd.capacity)
  {
    ghost var start := fd.sent;
    DecInc(monitor.active);
    monitor.TaskStart();
    if !job.sourceWritable {
      fs := [];
      assert fd.sent + EncodeAll(fs) == fd.sent;
      monitor.TaskDone();
      return;
    }
    ghost var compiled: seq<Chunk> := [];
    assert fd.sent + Wire(compiled) == fd.sent;
    hide Encode, EncodeAll, Wire, IsTranscript, Flatten, JobOutput, JobCode, Header;
    if job.compile.Some? {
      var gcc := new Process.Fork(job.compile.value, interrupts);
      var compileExit;
      compileExit, compiled := StreamAndWait(fd, gcc);
      if compileExit != 0 {
        fs := GiveUp(fd, monitor, job, compileExit, start, compiled);
        return;
      }
    }
    fs := RunBinary(fd, monitor, job, interrupts, start, compiled);
  }

  /**
   * The whole of compile_and_stream: moreover, whoever reads a wire that has not been filled up sees what the
   * children did, and the right one's code.
   */
  method CompileAndStream(fd: Socket, monitor: Monitor, job: Job, interrupts: nat) returns (ghost fs: seq<Frame>)
    requires fd.Valid()
    modifies fd`sent, fd`interrupts, monitor
    ensures fd.Valid()
    ensures monitor.active == old(monitor.active) && monitor.total == (old(monitor.total) + 1) % 0x1_0000_0000
    ensures IsTranscript(job, fs)
    ensures fd.sent == Carried(old(fd.sent) + EncodeAll(fs), fd.capacity)
    ensures !job.sourceWritable ==> fd.sent == old(fd.sent)
    ensures job.sourceWritable && |fd.sent| < fd.capacity ==>
              ReadFrames(DecodeAll(fd.sent[|old(fd.sent)|..]))
              == match job
                 case Job(_, None, Child(output, Exited(c))) => Outcome(output, Some(c))
                 case Job(_, None, Child(output, Signaled(s))) => Outcome(output, Some(128 + s))
                 case Job(_, Some(Child(messages, Signaled(s))), _) => Outcome(messages, Some(128 + s))
                 case Job(_, Some(Child(messages, Exited(e))), Child(output, status)) =>
                   if e != 0 then Outcome(messages, Some(e))
                   else
                     match status
                     case Exited(c) => Outcome(messages + output, Some(c))
                     case Signaled(s) => Outcome(messages + output, Some(128 + s))
  {
    fs := CompileThenRun(fd, monitor, job, interrupts);
    if job.sourceWritable {
      WireTellsAll(job, fs, old(fd.sent), fd.sent, fd.capacity);
    } else {
      assert old(fd.sent) + EncodeAll(fs) == old(fd.sent);
    }
  }

  /** The one task, if any, that a connection delivering `stream` makes the worker run. */
  function TaskOf(stream: seq<Byte>): Option<Task> {
    match Decode(stream)
    case Failed => None
    case Got(f, _) => if f.kind == MSG_TASK_FILE then ParseTask(f.payload) else None
  }

  /** A message of any other type than 6 makes the worker run nothing; nor does anything but a whole message. */
  lemma OnlyTaskMessages(f: Frame, tail: seq<Byte>, stream: seq<Byte>)
    ensures Sendable(f) ==> TaskOf(Encode(f) + tail) == if f.kind == 6 then ParseTask(f.payload) else None
    ensures Decode(stream).Failed? ==> TaskOf(stream) == None
  {
    if Sendable(f) {
      DecodeEncode(f, tail);
    }
  }

  /**
   * One connection: at most one task is run, and only for a complete, well-formed MSG_TASK_FILE; anything else
   * closes the connection without a byte sent or a counter touched. `env` says what each task comes to here.
   */
  method HandleConnection(fd: Socket, monitor: Monitor, env: Task -> Job, interrupts: nat)
    returns (ran: Option<Task>, ghost fs: seq<Frame>)
    requires fd.Valid() && fd.sent == []
    modifies fd, monitor
    ensures ran == TaskOf(old(fd.incoming))
    ensures ran.Some? ==>
              && IsTranscript(env(ran.value), fs)
              && fd.sent == Carried(EncodeAll(fs), fd.capacity)
              && monitor.active == old(monitor.active) && monitor.total == (old(monitor.total) + 1) % 0x1_0000_0000
    ensures ran == None ==>
              && fd.sent == []
              && monitor.active == old(monitor.active) && monitor.total == old(monitor.total)
  {
    fs := [];
    ran := None;
    var m := RecvMsg(fd);
    if m == None {
      return;
    }
    if m.value.kind == MSG_TASK_FILE {
      ran := ParseWithCursor(m.value.payload);
      if ran.Some? {
        fs := CompileAndStream(fd, monitor, env(ran.value), interrupts);
        assert [] + EncodeAll(fs) == EncodeAll(fs);
      }
    }
  }

  /** What one call of accept comes to, with the active counter as it stood when it was tested. */
  datatype Arrival = Connection(active: uint32) | AcceptInterrupted | AcceptFailed

  /** The i-th call of accept yields a connection that finds room, and no call before it has failed. */
  ghost predicate Served(arrivals: seq<Arrival>, i: int) {
    && 0 <= i < |arrivals| && arrivals[i].Connection? && arrivals[i].active < 8
    && forall j :: 0 <= j < i ==> !arrivals[j].AcceptFailed?
  }

  /** The connections that get a handler, by the number of their call: exactly the served ones, each once, in order. */
  method AcceptLoop(arrivals: seq<Arrival>) returns (handlers: seq<int>)
    ensures forall i :: i in handlers <==> Served(arrivals, i)
    ensures forall k, l :: 0 <= k < l < |handlers| ==> handlers[k] < handlers[l]
  {
    handlers := [];
    var i := 0;
    while i < |arrivals|
      invariant 0 <= i <= |arrivals|
      invariant forall j :: 0 <= j < i ==> !arrivals[j].AcceptFailed?
      invariant forall j :: j in handlers <==> Served(arrivals, j) && j < i
      invariant forall k, l :: 0 <= k < l < |handlers| ==> handlers[k] < handlers[l]
    {
      var a := arrivals[i];
      i := i + 1;
      match a
      case AcceptInterrupted => continue;
      case AcceptFailed => break;
      case Connection(active) =>
        if active >= MAX_CONCURRENT_TASKS {
          continue;
        }
        assert forall k :: 0 <= k < |handlers| ==> handlers[k] in handlers;
        handlers := handlers + [i - 1];
    }
  }
}
