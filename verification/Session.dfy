/**
 * A task session as two processes and a network that interleave in every way: the worker reads its child's pipe
 * and sends frames, the network carries a few bytes at a time and may go dead at any moment and for good, and the
 * dispatcher collects bytes, prints and waits for the result.
 */
module Session {
  import opened Bytes
  import opened Common
  import opened Framing
  import opened Transcript
  import Worker

  datatype Phase = Compiling | RunningBinary | Finishing | Ended

  datatype Verdict = Waiting | Code(code: int) | Lost

  /**
   * `todo`: child output not yet read; `buf`: what send_msg has still to hand over; `wire`: bytes under way;
   * `up`: the connection carries more; `got`: the part of a message that recv_msg has collected.
   */
  datatype State = State(phase: Phase, todo: seq<Byte>, buf: seq<Byte>, wire: seq<Byte>, up: bool,
                         got: seq<Byte>, printed: seq<Byte>, verdict: Verdict)

  datatype Event =
    | ReadPipe(n: nat)
    | ChildEnds
    | CloseConnection
    | Adrift(phase: Phase, todo: seq<Byte>, buf: seq<Byte>)  // whatever the worker does once its sends fail
    | Send(n: nat)
    | Cut(k: nat)                                            // the connection dies; only k bytes under way arrive
    | Recv(n: nat)
    | TakeMessage
    | EndOfStream
    | Interrupt                                              // EINTR, anywhere

  /** Where the worker stands once it has started: compiling if it can, else running the binary, else giving up. */
  function Init(job: Job): State {
    if !job.sourceWritable then State(Finishing, [], [], [], true, [], [], Waiting)
    else if job.compile.Some? then State(Compiling, job.compile.value.output, [], [], true, [], [], Waiting)
    else State(RunningBinary, job.run.output, [], [], true, [], [], Waiting)
  }

  /** How many bytes recv_msg is collecting: a header, and then what the header announces. */
  function Needed(got: seq<Byte>): nat {
    if |got| < HEADER_SIZE || AnnouncedLength(got) > PAYLOAD_GUARD then HEADER_SIZE
    else HEADER_SIZE + AnnouncedLength(got)
  }

  predicate Collected(got: seq<Byte>) {
    |got| >= HEADER_SIZE && |got| == Needed(got)
  }

  predicate Enabled(s: State, e: Event) {
    match e
    case ReadPipe(n) =>
      (s.phase.Compiling? || s.phase.RunningBinary?) && s.buf == [] && 0 < n <= OUTPUT_BUF_SIZE && n <= |s.todo|
    case ChildEnds => (s.phase.Compiling? || s.phase.RunningBinary?) && s.buf == [] && s.todo == []
    case CloseConnection => s.phase.Finishing? && s.buf == []
    case Adrift(_, _, _) => !s.up
    case Send(n) => s.up && 0 < n <= |s.buf|
    case Cut(k) => k <= |s.wire|
    case Recv(n) => s.verdict.Waiting? && !Collected(s.got) && 0 < n <= |s.wire| && n <= Needed(s.got) - |s.got|
    case TakeMessage => s.verdict.Waiting? && Collected(s.got)
    case EndOfStream => s.verdict.Waiting? && !Collected(s.got) && s.wire == [] && (!s.up || s.phase.Ended?)
    case Interrupt => true
  }

  /** What the dispatcher does with a message: refuse it, print it, finish, or pass over it. */
  function Take(s: State): State
    requires Collected(s.got)
  {
    if AnnouncedLength(s.got) > PAYLOAD_GUARD then s.(verdict := Lost)
    else
      var kind, payload := s.got[0], s.got[HEADER_SIZE..];
      if kind == MSG_OUTPUT then s.(got := [], printed := s.printed + payload)
      else if kind == MSG_TASK_DONE then s.(got := [], verdict := Code(DoneCode(payload)))
      else s.(got := [])
  }

  function Step(job: Job, s: State, e: Event): State
    requires Enabled(s, e)
  {
    match e
    case ReadPipe(n) => s.(buf := Encode(Frame(MSG_OUTPUT, s.todo[..n])), todo := s.todo[n..])
    case ChildEnds =>
      if s.phase.Compiling? && !CompileFails(job) then s.(phase := RunningBinary, todo := job.run.output)
      else s.(phase := Finishing, buf := Encode(DoneFrame(JobCode(job))))
    case CloseConnection => s.(phase := Ended)
    case Adrift(phase, todo, buf) => s.(phase := phase, todo := todo, buf := buf)
    case Send(n) => s.(wire := s.wire + s.buf[..n], buf := s.buf[n..])
    case Cut(k) => s.(up := false, wire := s.wire[..k])
    case Recv(n) => s.(got := s.got + s.wire[..n], wire := s.wire[n..])
    case TakeMessage => Take(s)
    case EndOfStream => s.(verdict := Lost)
    case Interrupt => s
  }

  // ------------------------------------------------------------ the invariant

  /** The bytes of the frames for `chunks`, and of the final message if the worker has got to it. */
  ghost function Talk(job: Job, chunks: seq<Chunk>, done: bool): seq<Byte> {
    Worker.Wire(chunks) + if done then Encode(DoneFrame(JobCode(job))) else []
  }

  /** Child output the worker has still to read. */
  function Unread(job: Job, phase: Phase, todo: seq<Byte>): seq<Byte> {
    match phase
    case Compiling => todo + if CompileFails(job) then [] else job.run.output
    case RunningBinary => todo
    case _ => []
  }

  predicate SaidAll(phase: Phase) {
    phase.Finishing? || phase.Ended?
  }

  /** What has been collected, what is under way and what is `ahead` of that make up whole messages. */
  ghost predicate Stream(job: Job, got: seq<Byte>, wire: seq<Byte>, ahead: seq<Byte>, chunks: seq<Chunk>, done: bool) {
    |got| <= Needed(got) && got + wire + ahead == Talk(job, chunks, done)
  }

  /** Their contents continue what has been printed, and complete it if the final message is among them. */
  ghost predicate Content(job: Job, printed: seq<Byte>, chunks: seq<Chunk>, done: bool) {
    && IsPrefix(printed + Flatten(chunks), JobOutput(job))
    && (done ==> printed + Flatten(chunks) == JobOutput(job))
  }

  /** The worker's unread child output completes the job's. */
  ghost predicate Working(job: Job, phase: Phase, todo: seq<Byte>, printed: seq<Byte>, chunks: seq<Chunk>, done: bool) {
    && done == SaidAll(phase)
    && printed + Flatten(chunks) + Unread(job, phase, todo) == JobOutput(job)
    && (phase.Compiling? ==> job.compile.Some?)
    && (phase.RunningBinary? ==> !CompileFails(job))
  }

  /** While the dispatcher waits; as long as the connection is up, `ahead` is what the worker is about to send. */
  ghost predicate Open(job: Job, s: State, chunks: seq<Chunk>, done: bool, ahead: seq<Byte>) {
    && Stream(job, s.got, s.wire, ahead, chunks, done)
    && Content(job, s.printed, chunks, done)
    && (s.up ==>
          && ahead == s.buf && (s.phase.Ended? ==> s.buf == [])
          && Working(job, s.phase, s.todo, s.printed, chunks, done))
  }

  ghost predicate Opened(job: Job, s: State) {
    exists chunks: seq<Chunk>, done: bool, ahead: seq<Byte> :: Open(job, s, chunks, done, ahead)
  }

  /** A worker that could not even write the source says nothing. */
  predicate Mute(s: State) {
    && s.got == [] && s.wire == [] && s.printed == []
    && (s.up ==> s.buf == [] && SaidAll(s.phase))
  }

  ghost predicate Inv(job: Job, s: State) {
    match s.verdict
    case Waiting =>
      if job.sourceWritable then Opened(job, s) else Mute(s)
    case Code(code) => job.sourceWritable && s.printed == JobOutput(job) && code == JobCode(job)
    case Lost => IsPrefix(s.printed, JobOutput(job)) && (!s.up || !job.sourceWritable)
  }

  lemma InitInv(job: Job)
    ensures Inv(job, Init(job))
  {
    var s := Init(job);
    if job.sourceWritable {
      assert Worker.Wire([]) == [] && Flatten([]) == [];
      assert [] + JobOutput(job) == JobOutput(job);
      assert Open(job, s, [], false, []);
    }
  }

  // ------------------------------------------------------------ the worker's steps

  lemma TalkMore(job: Job, chunks: seq<Chunk>, c: Chunk)
    ensures Talk(job, chunks + [c], false) == Talk(job, chunks, false) + Encode(Frame(MSG_OUTPUT, c))
    ensures Flatten(chunks + [c]) == Flatten(chunks) + c
  {
    Worker.OneMoreChunk(chunks, c);
  }

  lemma TalkDone(job: Job, chunks: seq<Chunk>)
    ensures Talk(job, chunks, true) == Talk(job, chunks, false) + Encode(DoneFrame(JobCode(job)))
  {}

  /** What is read from the pipe is taken off the unread output. */
  lemma UnreadRead(job: Job, s: State, n: nat)
    requires Enabled(s, ReadPipe(n))
    ensures Unread(job, s.phase, s.todo) == s.todo[..n] + Unread(job, s.phase, s.todo[n..])
  {
    assert s.todo == s.todo[..n] + s.todo[n..];
  }

  /** The beginning of a child is the end of its predecessor's output. */
  lemma UnreadEnds(job: Job, s: State)
    requires Enabled(s, ChildEnds)
    ensures var t := Step(job, s, ChildEnds); Unread(job, t.phase, t.todo) == Unread(job, s.phase, s.todo)
  {
    assert [] + job.run.output == job.run.output;
    assert job.run.output + [] == job.run.output;
  }

  lemma MoreStream(job: Job, got: seq<Byte>, wire: seq<Byte>, chunks: seq<Chunk>, c: Chunk)
    requires Stream(job, got, wire, [], chunks, false)
    ensures Stream(job, got, wire, Encode(Frame(MSG_OUTPUT, c)), chunks + [c], false)
  {
    TalkMore(job, chunks, c);
    hide Encode, Talk, Needed;
    assert got + wire + [] == got + wire;
  }

  lemma LastStream(job: Job, got: seq<Byte>, wire: seq<Byte>, chunks: seq<Chunk>)
    requires Stream(job, got, wire, [], chunks, false)
    ensures Stream(job, got, wire, Encode(DoneFrame(JobCode(job))), chunks, true)
  {
    TalkDone(job, chunks);
    hide Encode, Talk, Needed;
    assert got + wire + [] == got + wire;
  }

  lemma WorkerReads(job: Job, s: State, n: nat, chunks: seq<Chunk>, done: bool)
    requires Enabled(s, ReadPipe(n)) && s.up && Open(job, s, chunks, done, s.buf)
    ensures var t := Step(job, s, ReadPipe(n)); Open(job, t, chunks + [s.todo[..n]], false, t.buf)
  {
    var c: Chunk := s.todo[..n];
    assert done == SaidAll(s.phase) == false;
    MoreStream(job, s.got, s.wire, chunks, c);
    TalkMore(job, chunks, c);
    UnreadRead(job, s, n);
    hide Stream, Encode, Flatten, Needed, Unread, JobOutput, Talk;
    Regroup(s.printed, Flatten(chunks), c, Unread(job, s.phase, s.todo[n..]));
  }

  lemma Regroup<T>(a: seq<T>, b: seq<T>, c: seq<T>, d: seq<T>)
    ensures a + b + (c + d) == a + (b + c) + d
    ensures IsPrefix(a + (b + c), a + (b + c) + d)
  {}

  lemma WorkerMovesOn(job: Job, s: State, chunks: seq<Chunk>, done: bool)
    requires Enabled(s, ChildEnds) && s.up && Open(job, s, chunks, done, s.buf)
    ensures var t := Step(job, s, ChildEnds); Open(job, t, chunks, SaidAll(t.phase), t.buf)
  {
    var t := Step(job, s, ChildEnds);
    assert done == SaidAll(s.phase) == false;
    LastStream(job, s.got, s.wire, chunks);
    UnreadEnds(job, s);
    assert SaidAll(t.phase) ==> Unread(job, t.phase, t.todo) == [];
    hide Stream, Encode, Flatten, Unread, JobOutput;
    assert s.printed + Flatten(chunks) + [] == s.printed + Flatten(chunks);
  }

  lemma StreamSends(job: Job, got: seq<Byte>, wire: seq<Byte>, buf: seq<Byte>, n: nat, chunks: seq<Chunk>, done: bool)
    requires n <= |buf| && Stream(job, got, wire, buf, chunks, done)
    ensures Stream(job, got, wire + buf[..n], buf[n..], chunks, done)
  {
    hide Talk, Needed;
    assert buf == buf[..n] + buf[n..];
    assert got + (wire + buf[..n]) + buf[n..] == got + wire + buf;
  }

  lemma WorkerSends(job: Job, s: State, n: nat, chunks: seq<Chunk>, done: bool)
    requires Enabled(s, Send(n)) && Open(job, s, chunks, done, s.buf)
    ensures var t := Step(job, s, Send(n)); Open(job, t, chunks, done, t.buf)
  {
    hide Stream, Content, Working;
    StreamSends(job, s.got, s.wire, s.buf, n, chunks, done);
  }

  /** Steps of the worker that leave the stream alone: its last, and any once the connection is down. */
  lemma WorkerSilent(job: Job, s: State, e: Event, chunks: seq<Chunk>, done: bool, ahead: seq<Byte>)
    requires Enabled(s, e) && Open(job, s, chunks, done, ahead)
    requires e.CloseConnection? || e.Interrupt? || (!s.up && (e.ReadPipe? || e.ChildEnds? || e.Adrift?))
    ensures Open(job, Step(job, s, e), chunks, done, ahead)
  {
    hide Stream, Content, Flatten, JobOutput, Encode;
  }

  lemma StreamCut(job: Job, got: seq<Byte>, wire: seq<Byte>, ahead: seq<Byte>, k: nat, chunks: seq<Chunk>, done: bool)
    requires k <= |wire| && Stream(job, got, wire, ahead, chunks, done)
    ensures Stream(job, got, wire[..k], wire[k..] + ahead, chunks, done)
  {
    hide Talk, Needed;
    assert wire == wire[..k] + wire[k..];
    assert got + wire[..k] + (wire[k..] + ahead) == got + wire + ahead;
  }

  lemma NetworkCuts(job: Job, s: State, k: nat, chunks: seq<Chunk>, done: bool, ahead: seq<Byte>)
    requires Enabled(s, Cut(k)) && Open(job, s, chunks, done, ahead)
    ensures Open(job, Step(job, s, Cut(k)), chunks, done, s.wire[k..] + ahead)
  {
    hide Stream, Content, Working;
    StreamCut(job, s.got, s.wire, ahead, k, chunks, done);
  }

  // ------------------------------------------------------------ the dispatcher's steps

  function FirstFrame(job: Job, chunks: seq<Chunk>): Frame {
    if chunks != [] then Frame(MSG_OUTPUT, chunks[0]) else DoneFrame(JobCode(job))
  }

  function RestOfTalk(job: Job, chunks: seq<Chunk>, done: bool): (r: (seq<Chunk>, bool)) {
    if chunks != [] then (chunks[1..], done) else ([], false)
  }

  lemma TalkSplit(job: Job, chunks: seq<Chunk>, done: bool)
    requires chunks != [] || done
    ensures var r := RestOfTalk(job, chunks, done);
            Talk(job, chunks, done) == Encode(FirstFrame(job, chunks)) + Talk(job, r.0, r.1)
  {
    if chunks != [] {
      assert chunks == [chunks[0]] + chunks[1..];
      Worker.WireAppend([chunks[0]], chunks[1..]);
      Worker.WireOne(chunks[0]);
    } else {
      assert Worker.Wire([]) == [];
    }
  }

  lemma FirstFrameSendable(job: Job, chunks: seq<Chunk>)
    ensures Sendable(FirstFrame(job, chunks))
  {}

  /** A collected message is the first of those to come; and until it is collected, more of it is still to come. */
  lemma CollectsFirst(got: seq<Byte>, rest: seq<Byte>, f: Frame, more: seq<Byte>)
    requires Sendable(f) && got + rest == Encode(f) + more && |got| <= Needed(got)
    ensures |got| <= |Encode(f)|
    ensures Collected(got) <==> got == Encode(f)
    ensures rest == [] ==> Collected(got)
    ensures Collected(got) ==> rest == more && AnnouncedLength(got) == |f.payload| && got[HEADER_SIZE..] == f.payload
  {
    if |got| >= HEADER_SIZE {
      HeaderAnnounces(f.kind, |f.payload|, (Encode(f) + more)[HEADER_SIZE..|got|]);
      assert got == (got + rest)[..|got|];
      assert got == Header(f.kind, |f.payload|) + (Encode(f) + more)[HEADER_SIZE..|got|];
      if |got| == |Encode(f)| {
        assert got == Encode(f);
        assert rest == (got + rest)[|got|..];
      }
    }
    assert rest == [] ==> got == got + rest;
  }

  lemma StreamReceives(job: Job, got: seq<Byte>, wire: seq<Byte>, ahead: seq<Byte>, n: nat,
                       chunks: seq<Chunk>, done: bool)
    requires n <= |wire| && |got| + n <= Needed(got) && Stream(job, got, wire, ahead, chunks, done)
    ensures Stream(job, got + wire[..n], wire[n..], ahead, chunks, done)
  {
    NeededGrows(got, wire[..n]);
    hide Talk, Needed;
    assert wire == wire[..n] + wire[n..];
    assert got + wire[..n] + wire[n..] == got + wire;
  }

  lemma DispatcherReceives(job: Job, s: State, n: nat, chunks: seq<Chunk>, done: bool, ahead: seq<Byte>)
    requires Enabled(s, Recv(n)) && Open(job, s, chunks, done, ahead)
    ensures Open(job, Step(job, s, Recv(n)), chunks, done, ahead)
  {
    hide Stream, Content, Working, Needed, Collected;
    StreamReceives(job, s.got, s.wire, ahead, n, chunks, done);
  }

  lemma NeededGrows(got: seq<Byte>, more: seq<Byte>)
    requires |got| + |more| <= Needed(got)
    ensures |got + more| <= Needed(got + more)
  {
    if |got| >= HEADER_SIZE {
      assert (got + more)[2..6] == got[2..6];
    }
  }

  lemma TalkEmpty(job: Job)
    ensures Talk(job, [], false) == []
  {
    assert Worker.Wire([]) == [];
  }

  /** Behind the message for the first chunk come the messages for the rest. */
  lemma AfterFirstChunk(job: Job, chunks: seq<Chunk>, done: bool, wire: seq<Byte>, ahead: seq<Byte>)
    requires chunks != []
    requires Encode(Frame(MSG_OUTPUT, chunks[0])) + wire + ahead == Talk(job, chunks, done)
    ensures [] + wire + ahead == Talk(job, chunks[1..], done)
  {
    TalkSplit(job, chunks, done);
    var first := Encode(Frame(MSG_OUTPUT, chunks[0]));
    assert first == Encode(FirstFrame(job, chunks));
    hide Talk, Encode, FirstFrame;
    assert first + wire + ahead == first + (wire + ahead);
    SameTail(first, wire + ahead, Talk(job, chunks[1..], done));
    assert [] + wire + ahead == wire + ahead;
  }

  lemma DispatcherPrints(job: Job, s: State, chunks: seq<Chunk>, done: bool, ahead: seq<Byte>)
    requires Open(job, s, chunks, done, ahead) && chunks != []
    requires s.got == Encode(Frame(MSG_OUTPUT, chunks[0]))
    ensures Open(job, s.(got := [], printed := s.printed + chunks[0]), chunks[1..], done, ahead)
  {
    AfterFirstChunk(job, chunks, done, s.wire, ahead);
    assert Stream(job, [], s.wire, ahead, chunks[1..], done);
    assert Flatten(chunks) == chunks[0] + Flatten(chunks[1..]);
    hide Stream, Flatten, Encode, JobOutput, Unread;
    assert s.printed + (chunks[0] + Flatten(chunks[1..])) == s.printed + chunks[0] + Flatten(chunks[1..]);
  }

  lemma SameTail<T>(a: seq<T>, b: seq<T>, c: seq<T>)
    requires a + b == a + c
    ensures b == c
  {
    assert b == (a + b)[|a|..] && c == (a + c)[|a|..];
  }

  lemma DispatcherFinishes(job: Job, s: State, done: bool, ahead: seq<Byte>)
    requires Open(job, s, [], done, ahead) && done
    ensures s.printed == JobOutput(job)
  {
    assert Flatten([]) == [] && s.printed + [] == s.printed;
  }

  /** A collected message is the first of those to come, so the dispatcher prints it or finishes with it. */
  lemma TakenMessage(job: Job, s: State, chunks: seq<Chunk>, done: bool, ahead: seq<Byte>)
    requires Collected(s.got) && Open(job, s, chunks, done, ahead)
    ensures chunks != [] || done
    ensures var f := FirstFrame(job, chunks);
            && s.got == Encode(f) && s.got[0] == f.kind && s.got[HEADER_SIZE..] == f.payload
            && AnnouncedLength(s.got) <= PAYLOAD_GUARD
  {
    if chunks == [] && !done {
      TalkEmpty(job);
    }
    TalkSplit(job, chunks, done);
    FirstFrameSendable(job, chunks);
    var f, r := FirstFrame(job, chunks), RestOfTalk(job, chunks, done);
    hide Talk, Content, Working, JobCode, DoneFrame;
    assert s.got + s.wire + ahead == s.got + (s.wire + ahead);
    CollectsFirst(s.got, s.wire + ahead, f, Talk(job, r.0, r.1));
    assert s.got[0] == f.kind;
  }

  lemma DispatcherTakes(job: Job, s: State, chunks: seq<Chunk>, done: bool, ahead: seq<Byte>)
    requires job.sourceWritable && Enabled(s, TakeMessage) && Open(job, s, chunks, done, ahead)
    ensures Inv(job, Step(job, s, TakeMessage))
  {
    var t := Step(job, s, TakeMessage);
    TakenMessage(job, s, chunks, done, ahead);
    if chunks != [] {
      DispatcherPrints(job, s, chunks, done, ahead);
      hide Open, Encode, AnnouncedLength, Needed;
      assert Open(job, t, chunks[1..], done, ahead);
    } else {
      DispatcherFinishes(job, s, done, ahead);
      DoneRoundTrip(JobCode(job));
      hide Open, Encode, AnnouncedLength, Needed, DoneCode;
    }
  }

  /** The stream of a worker that has not been cut off does not end before its result has been taken. */
  lemma NoEarlyEnd(job: Job, s: State, chunks: seq<Chunk>, done: bool, ahead: seq<Byte>)
    requires Enabled(s, EndOfStream) && Open(job, s, chunks, done, ahead)
    ensures !s.up
  {
    if s.up {
      TalkSplit(job, chunks, done);
      FirstFrameSendable(job, chunks);
      var f, r := FirstFrame(job, chunks), RestOfTalk(job, chunks, done);
      assert s.got + [] == s.got + s.wire + ahead;
      CollectsFirst(s.got, [], f, Talk(job, r.0, r.1));
    }
  }

  // ------------------------------------------------------------ every step

  lemma ChunkRead(job: Job, s: State, n: nat)
    requires Opened(job, s) && Enabled(s, ReadPipe(n)) && s.up
    ensures Opened(job, Step(job, s, ReadPipe(n)))
  {
    var chunks: seq<Chunk>, done: bool, ahead: seq<Byte> :| Open(job, s, chunks, done, ahead);
    assert ahead == s.buf;
    var c: Chunk := s.todo[..n];
    hide Open, Step, Enabled, Encode, Needed, AnnouncedLength;
    WorkerReads(job, s, n, chunks, done);
    assert Open(job, Step(job, s, ReadPipe(n)), chunks + [c], false, Step(job, s, ReadPipe(n)).buf);
  }

  lemma ChildEnded(job: Job, s: State)
    requires Opened(job, s) && Enabled(s, ChildEnds) && s.up
    ensures Opened(job, Step(job, s, ChildEnds))
  {
    var chunks: seq<Chunk>, done: bool, ahead: seq<Byte> :| Open(job, s, chunks, done, ahead);
    assert ahead == s.buf;
    hide Open, Step, Encode, Needed, AnnouncedLength;
    WorkerMovesOn(job, s, chunks, done);
  }

  lemma WorkerIdles(job: Job, s: State, e: Event)
    requires Opened(job, s) && Enabled(s, e)
    requires e.CloseConnection? || e.Interrupt? || (!s.up && (e.ReadPipe? || e.ChildEnds? || e.Adrift?))
    ensures Opened(job, Step(job, s, e))
  {
    hide Open, Step, Enabled;
    var chunks: seq<Chunk>, done: bool, ahead: seq<Byte> :| Open(job, s, chunks, done, ahead);
    WorkerSilent(job, s, e, chunks, done, ahead);
  }

  lemma BytesMove(job: Job, s: State, e: Event)
    requires Opened(job, s) && Enabled(s, e) && (e.Send? || e.Cut? || e.Recv?)
    ensures Opened(job, Step(job, s, e))
  {
    var chunks: seq<Chunk>, done: bool, ahead: seq<Byte> :| Open(job, s, chunks, done, ahead);
    assert s.up ==> ahead == s.buf;
    hide Open, Step;
    if e.Send? {
      WorkerSends(job, s, e.n, chunks, done);
    } else if e.Cut? {
      NetworkCuts(job, s, e.k, chunks, done, ahead);
    } else {
      DispatcherReceives(job, s, e.n, chunks, done, ahead);
    }
  }

  lemma MessageTaken(job: Job, s: State)
    requires job.sourceWritable && Opened(job, s) && Enabled(s, TakeMessage)
    ensures Inv(job, Step(job, s, TakeMessage))
  {
    hide Open, Step, Enabled, Inv;
    var chunks: seq<Chunk>, done: bool, ahead: seq<Byte> :| Open(job, s, chunks, done, ahead);
    DispatcherTakes(job, s, chunks, done, ahead);
  }

  lemma StreamEnds(job: Job, s: State)
    requires Opened(job, s) && Enabled(s, EndOfStream)
    ensures !s.up && IsPrefix(s.printed, JobOutput(job))
  {
    hide Open, Enabled;
    var chunks: seq<Chunk>, done: bool, ahead: seq<Byte> :| Open(job, s, chunks, done, ahead);
    NoEarlyEnd(job, s, chunks, done, ahead);
    PrintedSoFar(job, s, chunks, done, ahead);
  }

  lemma PrintedSoFar(job: Job, s: State, chunks: seq<Chunk>, done: bool, ahead: seq<Byte>)
    requires Open(job, s, chunks, done, ahead)
    ensures IsPrefix(s.printed, JobOutput(job))
  {
    hide Talk, Needed;
    assert s.printed == (s.printed + Flatten(chunks))[..|s.printed|];
  }

  lemma StepInv(job: Job, s: State, e: Event)
    requires Inv(job, s) && Enabled(s, e)
    ensures Inv(job, Step(job, s, e))
  {
    if s.verdict.Waiting? && job.sourceWritable {
      hide Opened, Needed, Collected, AnnouncedLength, Encode, JobOutput;
      if e.TakeMessage? {
        MessageTaken(job, s);
      } else if e.EndOfStream? {
        StreamEnds(job, s);
      } else if e.Send? || e.Cut? || e.Recv? {
        BytesMove(job, s, e);
      } else if s.up && e.ReadPipe? {
        ChunkRead(job, s, e.n);
      } else if s.up && e.ChildEnds? {
        ChildEnded(job, s);
      } else {
        WorkerIdles(job, s, e);
      }
    }
  }

  // ------------------------------------------------------------ runs

  ghost predicate IsStep(job: Job, s: State, t: State) {
    exists e :: Enabled(s, e) && t == Step(job, s, e)
  }

  ghost predicate IsRun(job: Job, ss: seq<State>) {
    && |ss| > 0 && ss[0] == Init(job)
    && forall n :: 0 < n < |ss| ==> IsStep(job, ss[n - 1], ss[n])
  }

  lemma {:induction false} Reachable(job: Job, ss: seq<State>, n: nat)
    requires IsRun(job, ss) && n < |ss|
    ensures Inv(job, ss[n])
  {
    hide Inv, Enabled, Step;
    if n == 0 {
      InitInv(job);
    } else {
      Reachable(job, ss, n - 1);
      assert IsStep(job, ss[n - 1], ss[n]);
      var e :| Enabled(ss[n - 1], e) && ss[n] == Step(job, ss[n - 1], e);
      StepInv(job, ss[n - 1], e);
    }
  }

  /**
   * In every state of every interleaving, the submitter has been shown a prefix of the job's output; a result is
   * the job's own code and comes after all of it; and a session is lost only if the connection was, or if the
   * worker could not write the source.
   */
  lemma Safety(job: Job, ss: seq<State>, n: nat)
    requires IsRun(job, ss) && n < |ss|
    ensures IsPrefix(ss[n].printed, JobOutput(job))
    ensures ss[n].verdict.Code? ==> ss[n].printed == JobOutput(job) && ss[n].verdict.code == JobCode(job)
    ensures ss[n].verdict.Lost? && job.sourceWritable ==> !ss[n].up
  {
    Reachable(job, ss, n);
    if ss[n].verdict.Waiting? && job.sourceWritable {
      var chunks: seq<Chunk>, done: bool, ahead: seq<Byte> :| Open(job, ss[n], chunks, done, ahead);
      PrintedSoFar(job, ss[n], chunks, done, ahead);
    }
  }

  /** What a session that ends with a result has printed, and what the result is, from the children alone. */
  lemma ResultByChildren(job: Job, ss: seq<State>, n: nat)
    requires IsRun(job, ss) && n < |ss| && ss[n].verdict.Code?
    ensures job.sourceWritable
    ensures var (printed, code) := (ss[n].printed, ss[n].verdict.code);
            match job
            case Job(_, None, Child(output, Exited(c))) => printed == output && code == c
            case Job(_, None, Child(output, Signaled(s))) => printed == output && code == 128 + s
            case Job(_, Some(Child(messages, Signaled(s))), _) => printed == messages && code == 128 + s
            case Job(_, Some(Child(messages, Exited(e))), Child(output, status)) =>
              if e != 0 then printed == messages && code == e
              else
                match status
                case Exited(c) => printed == messages + output && code == c
                case Signaled(s) => printed == messages + output && code == 128 + s
  {
    Reachable(job, ss, n);
    JobByChildren(job);
  }

  // ------------------------------------------------------------ an unbroken session finishes

  /** What is still to be done, each kind of work outweighing all it gives rise to. */
  function Work(job: Job, s: State): nat {
    var rest := match s.phase case Compiling => 120 case RunningBinary => 80 case Finishing => 20 case Ended => 0;
    var waiting := if s.verdict.Waiting? then 1 else 0;
    40 * |Unread(job, s.phase, s.todo)| + 3 * |s.buf| + 2 * |s.wire| + |s.got| + rest + waiting
  }

  lemma WorkDone(job: Job, s: State, e: Event)
    requires Enabled(s, e) && Step(job, s, e).up
    ensures s.up
    ensures if e.Interrupt? then Step(job, s, e) == s else Work(job, Step(job, s, e)) < Work(job, s)
  {
    hide Needed, AnnouncedLength;
    match e
    case ReadPipe(n) => UnreadRead(job, s, n);
    case ChildEnds => UnreadEnds(job, s);
    case TakeMessage => assert |s.got| >= HEADER_SIZE;
    case _ =>
  }

  /** How often the state has changed in the first `n` steps. */
  ghost function Moves(ss: seq<State>, n: nat): nat
    requires n < |ss|
  {
    if n == 0 then 0 else Moves(ss, n - 1) + if ss[n] == ss[n - 1] then 0 else 1
  }

  /** A session whose connection holds makes only so many moves, however the kernel fragments its transfers. */
  lemma {:induction false} BoundedMoves(job: Job, ss: seq<State>, n: nat)
    requires IsRun(job, ss) && n < |ss| && ss[n].up
    ensures Moves(ss, n) + Work(job, ss[n]) <= Work(job, Init(job))
  {
    hide Enabled, Step, Work;
    if n > 0 {
      assert IsStep(job, ss[n - 1], ss[n]);
      var e :| Enabled(ss[n - 1], e) && ss[n] == Step(job, ss[n - 1], e);
      WorkDone(job, ss[n - 1], e);
      BoundedMoves(job, ss, n - 1);
    }
  }

  lemma SomethingToDo(s: State) returns (e: Event)
    requires s.up && s.verdict.Waiting? && |s.got| <= Needed(s.got)
    ensures Enabled(s, e) && !e.Interrupt? && !e.Cut?
  {
    if Collected(s.got) {
      e := TakeMessage;
    } else if s.wire != [] {
      e := Recv(1);
    } else if s.buf != [] {
      e := Send(1);
    } else {
      e := match s.phase
           case Finishing => CloseConnection
           case Ended => EndOfStream
           case _ => if s.todo == [] then ChildEnds else ReadPipe(1);
    }
  }

  /**
   * When a session whose connection has held comes to rest, and by BoundedMoves it does, so that nothing is left to
   * happen but interruptions and the loss of the connection, the submitter has all of the output and the job's
   * code; or it has learnt that the worker could not write the source.
   */
  lemma Completion(job: Job, ss: seq<State>, n: nat)
    requires IsRun(job, ss) && n < |ss|
    requires ss[n].up && forall e :: Enabled(ss[n], e) ==> e.Interrupt? || e.Cut?
    ensures if job.sourceWritable then ss[n].verdict == Code(JobCode(job) as int) && ss[n].printed == JobOutput(job)
            else ss[n].verdict == Lost
  {
    Reachable(job, ss, n);
    if ss[n].verdict.Waiting? {
      PartlyCollected(job, ss[n]);
      var e := SomethingToDo(ss[n]);
    }
  }

  lemma PartlyCollected(job: Job, s: State)
    requires Inv(job, s) && s.verdict.Waiting?
    ensures |s.got| <= Needed(s.got)
  {
    if job.sourceWritable {
      var chunks: seq<Chunk>, done: bool, ahead: seq<Byte> :| Open(job, s, chunks, done, ahead);
    }
  }

  // ------------------------------------------------------------ a broken session is noticed

  predicate ByDispatcher(e: Event) {
    e.Recv? || e.TakeMessage? || e.EndOfStream?
  }

  /** Bytes under way outweigh collected ones, and waiting outweighs having a verdict. */
  function ToCollect(s: State): nat {
    2 * |s.wire| + |s.got| + if s.verdict.Waiting? then 1 else 0
  }

  /** Once the connection is down it stays down, and every step of the dispatcher brings it closer to a verdict. */
  lemma CollectingEnds(job: Job, s: State, e: Event)
    requires Enabled(s, e) && !s.up
    ensures var t := Step(job, s, e);
            && !t.up
            && (if ByDispatcher(e) then ToCollect(t) < ToCollect(s) else ToCollect(t) <= ToCollect(s))
            && (!ByDispatcher(e) ==> t.got == s.got && t.printed == s.printed && t.verdict == s.verdict)
  {
    hide Needed, AnnouncedLength;
  }

  /** The dispatcher has collected, printed or decided something. */
  predicate Advanced(s: State, t: State) {
    s.got != t.got || s.printed != t.printed || s.verdict != t.verdict
  }

  /** How often the dispatcher has advanced between the i-th state and the n-th. */
  ghost function Advances(ss: seq<State>, i: nat, n: nat): nat
    requires i <= n < |ss|
    decreases n
  {
    if n == i then 0 else Advances(ss, i, n - 1) + if Advanced(ss[n - 1], ss[n]) then 1 else 0
  }

  /**
   * After the connection has been cut, whatever the worker goes on doing, what was left to collect bounds how often
   * the dispatcher still advances.
   */
  lemma {:induction false} BoundedAfterCut(job: Job, ss: seq<State>, i: nat, n: nat)
    requires IsRun(job, ss) && i <= n < |ss| && !ss[i].up
    ensures !ss[n].up && Advances(ss, i, n) + ToCollect(ss[n]) <= ToCollect(ss[i])
  {
    hide Enabled, Step, ToCollect;
    if i < n {
      BoundedAfterCut(job, ss, i, n - 1);
      assert IsStep(job, ss[n - 1], ss[n]);
      var e :| Enabled(ss[n - 1], e) && ss[n] == Step(job, ss[n - 1], e);
      CollectingEnds(job, ss[n - 1], e);
    }
  }

  /**
   * And when it has no step left it has a verdict: the job's own code after all of the output, or none after a
   * prefix of it. It never waits for ever.
   */
  lemma VerdictAfterCut(job: Job, ss: seq<State>, n: nat)
    requires IsRun(job, ss) && n < |ss| && !ss[n].up
    requires forall e :: Enabled(ss[n], e) ==> !ByDispatcher(e)
    ensures if ss[n].verdict == Lost then IsPrefix(ss[n].printed, JobOutput(job))
            else
              && job.sourceWritable
              && ss[n].verdict == Code(JobCode(job) as int) && ss[n].printed == JobOutput(job)
  {
    var s := ss[n];
    Reachable(job, ss, n);
    if s.verdict.Waiting? {
      PartlyCollected(job, s);
      var e := if Collected(s.got) then TakeMessage else if s.wire != [] then Recv(1) else EndOfStream;
      assert Enabled(s, e);
    }
  }
}
