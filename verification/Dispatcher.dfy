/**
 * The dispatcher: asking peers for their load, choosing a target, sending the task once and reading the output.
 */
module Dispatcher {
  import opened Bytes
  import opened Common
  import opened Framing
  import opened NetUtils
  import opened TaskFile
  import opened Transcript
  import opened LoadMonitor
  import opened LoadReport
  import opened PeerList
  import Worker

  // ------------------------------------------------------------ sending and receiving

  method MemCpy(dst: array<Byte>, at: nat, src: seq<Byte>)
    requires at + |src| <= dst.Length
    modifies dst
    ensures dst[..at + |src|] == old(dst[..at]) + src
    ensures dst[at + |src|..] == old(dst[at + |src|..])
  {
    forall i | 0 <= i < |src| {
      dst[at + i] := src[i];
    }
  }

  /** Lays the task out in a buffer, field after field. */
  method LayOut(task: Task) returns (buf: array<Byte>)
    requires EncodedSize(task) < 0x1_0000_0000
    ensures fresh(buf) && buf[..] == EncodeTask(task)
  {
    var fnLen := |task.name|;
    var total := 2 + fnLen + 4 + |task.data|;
    buf := new Byte[total];
    hide BE16, BE32;
    var p := 0;
    MemCpy(buf, p, BE16(fnLen));
    p := p + 2;
    MemCpy(buf, p, task.name);
    p := p + fnLen;
    MemCpy(buf, p, BE32(|task.data|));
    p := p + 4;
    MemCpy(buf, p, task.data);
    assert buf[..] == buf[..total];
  }

  /** Sends the laid-out task as one message. */
  method SendTaskFile(fd: Socket, task: Task) returns (ok: bool)
    requires fd.Valid() && EncodedSize(task) < 0x1_0000_0000
    modifies fd`sent, fd`interrupts
    ensures fd.Valid()
    ensures ok <==> |old(fd.sent)| + HEADER_SIZE + EncodedSize(task) <= fd.capacity
    ensures fd.sent == Carried(old(fd.sent) + Encode(Frame(MSG_TASK_FILE, EncodeTask(task))), fd.capacity)
  {
    var buf := LayOut(task);
    ok := SendMsg(fd, MSG_TASK_FILE, buf[..]);
  }

  /** What the next message of a stream does to the outcome. */
  lemma NextMessage(s: seq<Byte>)
    ensures var o := ReadFrames(DecodeAll(s));
            match Decode(s)
            case Failed => o == Outcome([], None)
            case Got(f, rest) =>
              var later := ReadFrames(DecodeAll(rest));
              o == if f.kind == MSG_OUTPUT then Outcome(f.payload + later.printed, later.result)
                   else if f.kind == MSG_TASK_DONE then Outcome([], Some(DoneCode(f.payload)))
                   else later
  {
    if Decode(s).Got? {
      assert DecodeAll(s)[1..] == DecodeAll(Decode(s).rest);
    }
  }

  /**
   * Prints MSG_OUTPUT payloads until MSG_TASK_DONE; -1 when the stream ends first. Whatever arrives, the outcome
   * is the one the frames in the stream determine.
   */
  method ReceiveOutput(fd: Socket) returns (code: int, printed: seq<Byte>)
    modifies fd`incoming, fd`interrupts
    ensures var o := ReadFrames(DecodeAll(old(fd.incoming)));
            printed == o.printed && code == ReturnCode(o)
  {
    printed := [];
    ghost var outcome := ReadFrames(DecodeAll(fd.incoming));
    hide ReadFrames, DecodeAll, Decode, FromBE32, AsInt32;
    while true
      invariant outcome.printed == printed + ReadFrames(DecodeAll(fd.incoming)).printed
      invariant outcome.result == ReadFrames(DecodeAll(fd.incoming)).result
      decreases |fd.incoming|
    {
      NextMessage(fd.incoming);
      var m := RecvMsg(fd);
      if m == None {
        return -1, printed;
      }
      var f := m.value;
      if f.kind == MSG_OUTPUT {
        printed := printed + f.payload;
      } else if f.kind == MSG_TASK_DONE {
        var exitCode := 0;
        if |f.payload| >= 4 {
          exitCode := AsInt32(FromBE32(f.payload[..4]));
        }
        return exitCode, printed;
      }
    }
  }

  // ------------------------------------------------------------ choosing a target

  // 1e9f, the score of a peer that does not answer, and 1e10f, where the search starts
  const NO_ANSWER: real := 1000000000.0
  const WORST: real := 10000000000.0

  // the meaning of the 32 bits of a (finite) float
  type FloatValue = uint32 -> real

  // the datagram received within the time limit, if any
  type Reply = Option<seq<Byte>>

  function ReportIn(reply: Reply): Option<Report> {
    match reply
    case None => None
    case Some(d) => ReadReply(Carried(d, REPLY_BUF))
  }

  function PeerScore(reply: Reply, value: FloatValue): real {
    match ReportIn(reply)
    case None => NO_ANSWER
    case Some(r) => Score(value(r.loadPct), r.activeTasks)
  }

  /** The port in a query's result: the peer's if it answered validly, otherwise whatever was there before. */
  function PortFound(peer: Peer, reply: Reply, leftover: uint16): uint16 {
    if ReportIn(reply).Some? then peer.port else leftover
  }

  /** A valid reply yields the peer's registered port and its percentage plus ten points a task, and is recorded. */
  method QueryPeerLoad(table: PeerTable, peer: Peer, reply: Reply, now: int, value: FloatValue, leftover: uint16)
    returns (score: real, port: uint16)
    requires table.Valid()
    modifies table.slots
    ensures score == PeerScore(reply, value)
    ensures port == PortFound(peer, reply, leftover)
    ensures table.slots[..] == AfterReply(old(table.slots[..]), peer.ip, reply, now)
    ensures match ReportIn(reply)
            case None => score == 1000000000.0 && port == leftover && table.slots[..] == old(table.slots[..])
            case Some(r) => score == value(r.loadPct) + 10.0 * r.activeTasks as real && port == peer.port
  {
    if reply == None {
      return NO_ANSWER, leftover;
    }
    var buf := if |reply.value| <= REPLY_BUF then reply.value else reply.value[..REPLY_BUF];
    if |buf| < HEADER_SIZE + REPORT_SIZE {
      return NO_ANSWER, leftover;
    }
    if buf[0] != MSG_LOAD_RESP {
      return NO_ANSWER, leftover;
    }
    var resp := buf[HEADER_SIZE..HEADER_SIZE + REPORT_SIZE];
    table.UpdateLoad(peer.ip, resp, now);
    var f := value(FromBE32(resp[..4]));
    var active := FromBE32(resp[4..8]);
    return f + 10.0 * active as real, peer.port;
  }

  /** A valid answer is also recorded, if the peer is still listed. */
  function AfterReply(s: seq<Peer>, ip: Ip, reply: Reply, now: int): seq<Peer> {
    match ReportIn(reply)
    case None => s
    case Some(r) => SlotStep(s, UpdateLoad(ip, r, now))
  }

  /** The table after the first `n` queries; before the i-th reply is recorded, other threads perform `others(i)`. */
  function AfterReplies(s: seq<Peer>, peers: seq<Peer>, replies: seq<Reply>, times: nat -> int,
                        others: nat -> seq<Op>, n: nat): seq<Peer>
    requires n <= |peers| == |replies|
  {
    if n == 0 then s
    else
      var before := SlotRun(AfterReplies(s, peers, replies, times, others, n - 1), others(n - 1));
      AfterReply(before, peers[n - 1].ip, replies[n - 1], times(n - 1))
  }

  function Scores(replies: seq<Reply>, value: FloatValue): (s: seq<real>)
    ensures |s| == |replies|
  {
    seq(|replies|, i requires 0 <= i < |replies| => PeerScore(replies[i], value))
  }

  /** Self is as good as every peer (and a score above 1e10 is good as nothing). */
  ghost predicate SelfIsBest(self: real, scores: seq<real>) {
    |scores| == 0 || (self <= WORST && forall k :: 0 <= k < |scores| ==> self <= scores[k])
  }

  /** The first of the peers with the least score, provided that is below 1e10. */
  ghost predicate PeerIsBest(i: int, scores: seq<real>) {
    && 0 <= i < |scores| && scores[i] < WORST
    && (forall k :: 0 <= k < |scores| ==> scores[i] <= scores[k])
    && (forall k :: 0 <= k < i ==> scores[i] < scores[k])
  }

  /** Whoever is not beaten by anyone is there: either self or a first best peer, if any score is below 1e10. */
  lemma {:induction false} BestExists(scores: seq<real>) returns (i: int)
    requires exists k :: 0 <= k < |scores| && scores[k] < WORST
    ensures PeerIsBest(i, scores)
  {
    var n := |scores| - 1;
    var init := scores[..n];
    if exists k :: 0 <= k < |init| && init[k] < WORST {
      i := BestExists(init);
      assert forall k :: 0 <= k < n ==> scores[k] == init[k];
      if scores[n] < scores[i] {
        i := n;
      }
    } else {
      forall k | 0 <= k < n ensures scores[k] >= WORST {
        assert init[k] == scores[k];
      }
      i := n;
    }
  }

  /** The best peer, or -1 when every peer scores 1e10 or more. */
  ghost function BestPeer(scores: seq<real>): (best: int)
    ensures -1 <= best < |scores|
  {
    if i :| PeerIsBest(i, scores) then i else -1
  }

  /** There is only one, and none exactly when every peer scores 1e10 or more. */
  lemma BestPeerExact(scores: seq<real>)
    ensures BestPeer(scores) == -1 <==> forall k :: 0 <= k < |scores| ==> scores[k] >= 10000000000.0
    ensures forall i :: PeerIsBest(i, scores) <==> i == BestPeer(scores) && i >= 0
  {
    if k :| 0 <= k < |scores| && scores[k] < WORST {
      var i := BestExists(scores);
    }
  }

  /**
   * The selection loop. When a peer is chosen it is the best one, and the port is its registered one if it
   * answered; when there is no best one the address stays empty. The i-th query is answered at `times(i)` and
   * finds `leftover(i)` in its uninitialised result. What other threads do to the table meanwhile has no influence
   * on the choice.
   *
   * With an own score within 1e9 the connection goes to the chosen peer's registered port. Who is chosen in terms of
   * the replies alone, see SelfByReplies and BestByReplies.
   */
  method ChooseTarget(table: PeerTable, peers: seq<Peer>, replies: seq<Reply>, times: nat -> int,
                      value: FloatValue, self: real, leftover: nat -> uint16, others: nat -> seq<Op>)
    returns (useLocal: bool, bestIp: Ip, bestPort: uint16)
    requires table.Valid() && |peers| == |replies|
    modifies table.slots
    ensures useLocal <==> SelfIsBest(self, Scores(replies, value))
    ensures var best := BestPeer(Scores(replies, value));
            if best < 0 then bestIp == "" && bestPort == 0
            else bestIp == peers[best].ip && bestPort == PortFound(peers[best], replies[best], leftover(best))
    ensures table.slots[..] == AfterReplies(old(table.slots[..]), peers, replies, times, others, |peers|)
    ensures !useLocal && self <= 1000000000.0 ==>
              var best := BestPeer(Scores(replies, value));
              0 <= best < |peers| && bestIp == peers[best].ip && bestPort == peers[best].port
  {
    ghost var scores := Scores(replies, value);
    var bestScore := WORST;
    ghost var best := -1;
    bestIp, bestPort := "", 0;
    hide AfterReply, SlotRun, PeerScore, ReportIn;
    for i := 0 to |peers|
      invariant -1 <= best < i
      invariant bestScore == if best < 0 then WORST else scores[best]
      invariant best < 0 ==> bestIp == "" && bestPort == 0
      invariant best >= 0 ==>
                  && scores[best] < WORST
                  && (forall k :: 0 <= k < best ==> scores[best] < scores[k])
                  && bestIp == peers[best].ip
                  && bestPort == PortFound(peers[best], replies[best], leftover(best))
      invariant forall k :: 0 <= k < i ==> bestScore <= scores[k]
      invariant table.slots[..] == AfterReplies(old(table.slots[..]), peers, replies, times, others, i)
    {
      table.PerformAll(others(i));
      var score, port := QueryPeerLoad(table, peers[i], replies[i], times(i), value, leftover(i));
      if score < bestScore {
        bestScore := score;
        bestIp := peers[i].ip;
        bestPort := port;
        best := i;
      }
    }
    assert best >= 0 ==> PeerIsBest(best, scores);
    BestPeerExact(scores);
    assert best == BestPeer(scores);
    useLocal := |peers| == 0 || self <= bestScore;
    if !useLocal && self <= NO_ANSWER {
      BestByReplies(replies, value, self);
    }
  }

  /**
   * When self is chosen, in terms of the replies: when there is no peer, or when its score is within 1e10 and no peer
   * that answered has a lower percentage plus ten points a task, and no peer is silent unless the score is within 1e9.
   */
  lemma SelfByReplies(replies: seq<Reply>, value: FloatValue, self: real)
    ensures SelfIsBest(self, Scores(replies, value)) <==>
              || |replies| == 0
              || (self <= 10000000000.0
                  && forall k :: 0 <= k < |replies| ==>
                       match ReportIn(replies[k])
                       case None => self <= 1000000000.0
                       case Some(r) => self <= value(r.loadPct) + 10.0 * r.activeTasks as real)
  {
    var scores := Scores(replies, value);
    assert forall k :: 0 <= k < |replies| ==> scores[k] == PeerScore(replies[k], value);
    hide ReportIn;
  }

  /**
   * Who is chosen otherwise, with an own score within 1e9: a peer that has answered, is less loaded than self and
   * than every peer before it that answered, and no more than those after it.
   */
  lemma BestByReplies(replies: seq<Reply>, value: FloatValue, self: real)
    requires !SelfIsBest(self, Scores(replies, value)) && self <= 1000000000.0
    ensures var best := BestPeer(Scores(replies, value));
            && 0 <= best < |replies| && ReportIn(replies[best]).Some?
            && var least := var r := ReportIn(replies[best]).value; value(r.loadPct) + 10.0 * r.activeTasks as real;
               && least < self
               && forall k :: 0 <= k < |replies| && ReportIn(replies[k]).Some? ==>
                    var r := ReportIn(replies[k]).value;
                    var load := value(r.loadPct) + 10.0 * r.activeTasks as real;
                    least <= load && (k < best ==> least < load)
  {
    var scores := Scores(replies, value);
    var k :| 0 <= k < |scores| && scores[k] < self;
    hide ReportIn;
    BestPeerExact(scores);
    assert scores[BestPeer(scores)] <= scores[k];
    forall k | 0 <= k < |replies| ensures scores[k] == PeerScore(replies[k], value) {}
  }

  /** Self is chosen exactly when no peer scores less, whatever the peers score, if and only if it is within 1e10. */
  lemma SelfChosenExactly(self: real)
    ensures (forall scores: seq<real> ::
               SelfIsBest(self, scores) <==> forall k :: 0 <= k < |scores| ==> self <= scores[k])
       <==> self <= 10000000000.0
  {
    if self > WORST {
      assert !SelfIsBest(self, [self]);
    }
  }

  /**
   * A peer that is chosen has answered, so that the connection goes to its registered port, whatever the replies,
   * if and only if the own score is at most 1e9.
   */
  lemma ChosenPeerAnswered(value: FloatValue, self: real)
    ensures (forall replies: seq<Reply>, i ::
               PeerIsBest(i, Scores(replies, value)) && !SelfIsBest(self, Scores(replies, value))
               ==> ReportIn(replies[i]).Some?)
       <==> self <= 1000000000.0
  {
    if self <= NO_ANSWER {
      forall replies: seq<Reply>, i |
        PeerIsBest(i, Scores(replies, value)) && !SelfIsBest(self, Scores(replies, value))
        ensures ReportIn(replies[i]).Some?
      {
        var scores := Scores(replies, value);
        var k :| 0 <= k < |scores| && scores[k] < self;
        assert scores[i] <= scores[k];
      }
    } else {
      var replies: seq<Reply> := [None];
      assert Scores(replies, value)[0] == NO_ANSWER;
      assert PeerIsBest(0, Scores(replies, value)) && !SelfIsBest(self, Scores(replies, value));
      assert ReportIn(replies[0]) == None;
    }
  }

  /**
   * A peer's answer carries its load across: the dispatcher scores it with the formula the peer uses for itself,
   * and, if the peer is still listed, records the very values it sent.
   */
  lemma AnsweredScore(load: Report, value: FloatValue, s: seq<Peer>, ip: Ip, now: int)
    requires UniqueIps(s)
    ensures var reply := Respond(Header(MSG_LOAD_REQ, 0), load);
            && PeerScore(reply, value) == value(load.loadPct) + 10.0 * load.activeTasks as real
            && Lookup(AfterReply(s, ip, reply, now), ip)
            == match Lookup(s, ip)
               case None => None
               case Some(p) => Some(p.(load := load, lastSeen := now))
  {
    ReportRoundTrip(load);
    LookupStep(s, UpdateLoad(ip, load, now), ip);
  }

  /**
   * The fallback: when every peer stays silent the task is run locally exactly when there is no peer or the own
   * score is at most 1e9, which it is for up to 99,999,990 active tasks. Otherwise the first peer is chosen, at
   * whatever port the uninitialised result holds.
   */
  lemma AllSilent(peers: seq<Peer>, replies: seq<Reply>, value: FloatValue, pct: real, active: uint32,
                  leftover: nat -> uint16)
    requires |peers| == |replies| && forall k :: 0 <= k < |replies| ==> ReportIn(replies[k]) == None
    requires 0.0 <= pct <= 100.0
    ensures SelfIsBest(Score(pct, active), Scores(replies, value))
       <==> |replies| == 0 || pct + 10.0 * active as real <= 1000000000.0
    ensures active <= 99_999_990 ==> SelfIsBest(Score(pct, active), Scores(replies, value))
    ensures !SelfIsBest(Score(pct, active), Scores(replies, value)) ==>
              && BestPeer(Scores(replies, value)) == 0
              && PortFound(peers[0], replies[0], leftover(0)) == leftover(0)
  {
    var scores := Scores(replies, value);
    assert active <= 99_999_990 ==> active as real <= 99_999_990.0;
    if |replies| > 0 {
      assert scores[0] == NO_ANSWER;
      assert PeerIsBest(0, scores);
    }
    BestPeerExact(scores);
  }

  // ------------------------------------------------------------ one dispatch

  /**
   * A connection that could be made: how far the task gets out of this node and how much of that arrives, whether
   * the worker's accept loop has room for it, and the same for the output on its way back.
   */
  datatype Link = Link(out: nat, arriving: nat, admitted: bool, back: nat, returning: nat)

  /** A task run on a node. */
  datatype Execution = Execution(node: Ip, task: Task)

  // what a task comes to on each node
  type Cluster = Ip -> (Task -> Job)

  // what tcp_connect to an address and port comes to
  type Network = (Ip, uint16) -> Option<Link>

  /** inet_pton refuses an empty address. */
  function TcpConnect(net: Network, ip: Ip, port: uint16): (link: Option<Link>)
    ensures ip != "" ==> link == net(ip, port)
    ensures ip == "" ==> link == None
  {
    if ip == "" then None else net(ip, port)
  }

  function Min(a: nat, b: nat): nat {
    if a < b then a else b
  }

  /** The task's one message gets through the connection to a handler. */
  predicate Delivers(link: Option<Link>, task: Task) {
    && link.Some? && link.value.admitted
    && Min(link.value.out, link.value.arriving) >= HEADER_SIZE + EncodedSize(task)
  }

  /**
   * What one dispatch may come to once a connection to `node` has been made, or not. At most one task was run, on
   * that node, and it is this one; it was run exactly when its message got through. The result is -1 unless the
   * whole transcript `fs` came back; otherwise it is the job's code and everything has been printed. What has
   * been printed is a prefix of the job's output in any case.
   */
  ghost predicate Settled(task: Task, node: Ip, link: Option<Link>, cluster: Cluster, executions: seq<Execution>,
                          code: int, printed: seq<Byte>, fs: seq<Frame>)
  {
    var job := cluster(node)(task);
    if Delivers(link, task) then
      && executions == [Execution(node, task)]
      && IsTranscript(job, fs)
      && IsPrefix(printed, JobOutput(job))
      && if job.sourceWritable && Min(link.value.back, link.value.returning) >= |EncodeAll(fs)|
         then code == JobCode(job) && printed == JobOutput(job)
         else code == -1
    else executions == [] && code == -1 && printed == []
  }

  /**
   * What that means for connections of given capacities. The task runs once if 14 bytes more than its name and its
   * contents get through to a handler, and not at all otherwise; the submitter has all the output and the code if
   * nine bytes for each one of output and 12 more come back, and only then if 12 more than the output do.
   */
  lemma SettledByLink(task: Task, node: Ip, link: Option<Link>, cluster: Cluster, executions: seq<Execution>,
                      code: int, printed: seq<Byte>, fs: seq<Frame>)
    requires Settled(task, node, link, cluster, executions, code, printed, fs)
    ensures var n := 14 + |task.name| + |task.data|;
            var job := cluster(node)(task);
            if link.Some? && link.value.admitted && link.value.out >= n && link.value.arriving >= n then
              var output := JobOutput(job);
              var room := if link.value.back <= link.value.returning then link.value.back else link.value.returning;
              && executions == [Execution(node, task)]
              && printed <= output
              && (!job.sourceWritable ==> code == -1)
              && (job.sourceWritable && room >= 9 * |output| + 12 ==> code == JobCode(job) && printed == output)
              && (room < |output| + 12 ==> code == -1)
            else executions == [] && code == -1 && printed == []
  {
    var job := cluster(node)(task);
    if Delivers(link, task) && job.sourceWritable {
      TranscriptLength(job, fs);
    }
  }

  /** Send the task over a connection that was made, let the worker handle it, and read what comes back. */
  method RunOn(task: Task, node: Ip, conn: Link, cluster: Cluster, monitor: Monitor, interrupts: nat)
    returns (code: int, printed: seq<Byte>, executions: seq<Execution>, ghost fs: seq<Frame>)
    requires InLimits(task)
    modifies monitor
    ensures Settled(task, node, Some(conn), cluster, executions, code, printed, fs)
    ensures monitor.active == old(monitor.active)
    ensures monitor.total == if executions == [] then old(monitor.total) else (old(monitor.total) + 1) % 0x1_0000_0000
  {
    executions, printed, fs := [], [], [];
    var fd := new Socket(conn.out, [], interrupts);
    var sent := SendTaskFile(fd, task);
    var arrived := Carried(fd.sent, conn.arriving);
    OneTaskSent(task, conn.out, conn.arriving);

    // meanwhile, on the node connected to
    var reply: seq<Byte> := [];
    if conn.admitted {
      var peer := new Socket(conn.back, arrived, interrupts);
      var ran;
      ran, fs := Worker.HandleConnection(peer, monitor, cluster(node), interrupts);
      if ran.Some? {
        executions := [Execution(node, ran.value)];
      }
      reply := Carried(peer.sent, conn.returning);
    }

    if !sent {
      return -1, printed, executions, fs;
    }
    fd.incoming := reply;
    code, printed := ReceiveOutput(fd);
    if executions == [] {
      NothingRead();
    } else {
      CarriedTwice(EncodeAll(fs), conn.back, conn.returning);
      EndToEnd(cluster(node)(task), fs, Min(conn.back, conn.returning));
    }
  }

  /** The reply to each query, by address. */
  type Answers = Ip -> Reply

  function RepliesOf(peers: seq<Peer>, answers: Answers): (r: seq<Reply>)
    ensures |r| == |peers| && forall i :: 0 <= i < |peers| ==> r[i] == answers(peers[i].ip)
  {
    seq(|peers|, i requires 0 <= i < |peers| => answers(peers[i].ip))
  }

  /** Connect to the target, or failing that to this node, and run the task there; once. */
  method ConnectAndRun(task: Task, useLocal: bool, bestIp: Ip, bestPort: uint16, localIp: Ip, ownPort: uint16,
                       net: Network, cluster: Cluster, monitor: Monitor, interrupts: nat)
    returns (code: int, printed: seq<Byte>, executions: seq<Execution>, ghost fs: seq<Frame>)
    requires InLimits(task)
    modifies monitor
    ensures var remote := TcpConnect(net, bestIp, bestPort);
            if !useLocal && remote.Some? then
              Settled(task, bestIp, remote, cluster, executions, code, printed, fs)
            else
              Settled(task, localIp, TcpConnect(net, localIp, ownPort), cluster, executions, code, printed, fs)
    ensures monitor.active == old(monitor.active)
    ensures monitor.total == if executions == [] then old(monitor.total) else (old(monitor.total) + 1) % 0x1_0000_0000
  {
    var target := if useLocal then localIp else bestIp;
    var port := if useLocal then ownPort else bestPort;
    var conn := TcpConnect(net, target, port);
    if conn == None {
      if !useLocal {
        target := localIp;
        conn := TcpConnect(net, localIp, ownPort);
      }
      if conn == None {
        code, printed, executions, fs := -1, [], [], [];
        return;
      }
    }
    code, printed, executions, fs := RunOn(task, target, conn.value, cluster, monitor, interrupts);
  }

  /** All listed peers, copied into a buffer of 64. */
  method Snapshot(table: PeerTable) returns (peers: seq<Peer>)
    requires table.Valid()
    ensures peers == Listed(table.slots[..])
  {
    var out := new Peer[MAX_PEERS](_ => NO_PEER);
    ListedBounded(table.slots[..]);
    var n := table.GetAll(out, MAX_PEERS);
    peers := out[..n];
  }

  /**
   * The whole of dispatch: snapshot, query, choose, run once. `pct` and `active` are this node's load, `monitor`
   * holds the counters of the node that handles the task. Other threads may do anything to the table before each
   * query and after the last one; where the task goes depends on the snapshot and the replies alone.
   */
  method Dispatch(table: PeerTable, task: Task, localIp: Ip, ownPort: uint16, pct: real, active: uint32,
                  answers: Answers, value: FloatValue, times: nat -> int, leftover: nat -> uint16,
                  others: nat -> seq<Op>, net: Network, cluster: Cluster, monitor: Monitor, interrupts: nat)
    returns (code: int, printed: seq<Byte>, executions: seq<Execution>, ghost fs: seq<Frame>)
    requires table.Valid() && InLimits(task)
    modifies table.slots, monitor
    ensures var peers := Listed(old(table.slots[..]));
            var scores := Scores(RepliesOf(peers, answers), value);
            var best := BestPeer(scores);
            var remote :=
              if SelfIsBest(Score(pct, active), scores) || best < 0 then None
              else
                var port := PortFound(peers[best], answers(peers[best].ip), leftover(best));
                TcpConnect(net, peers[best].ip, port);
            if remote.Some? then Settled(task, peers[best].ip, remote, cluster, executions, code, printed, fs)
            else Settled(task, localIp, TcpConnect(net, localIp, ownPort), cluster, executions, code, printed, fs)
    ensures monitor.active == old(monitor.active)
    ensures monitor.total == if executions == [] then old(monitor.total) else (old(monitor.total) + 1) % 0x1_0000_0000
    ensures var peers := Listed(old(table.slots[..]));
            var replies := RepliesOf(peers, answers);
            !SelfIsBest(pct + 10.0 * active as real, Scores(replies, value))
            && pct + 10.0 * active as real <= 1000000000.0 ==>
              var best := BestPeer(Scores(replies, value));
              && 0 <= best < |peers|
              && var remote := TcpConnect(net, peers[best].ip, peers[best].port);
                 if remote.Some? then Settled(task, peers[best].ip, remote, cluster, executions, code, printed, fs)
                 else Settled(task, localIp, TcpConnect(net, localIp, ownPort), cluster, executions, code, printed, fs)
    ensures var peers := Listed(old(table.slots[..]));
            var queried :=
              AfterReplies(old(table.slots[..]), peers, RepliesOf(peers, answers), times, others, |peers|);
            table.slots[..] == SlotRun(queried, others(|peers|))
  {
    var self := Score(pct, active);
    var peers := Snapshot(table);
    var replies := RepliesOf(peers, answers);
    assert self == pct + 10.0 * active as real;
    hide *;
    var useLocal, bestIp, bestPort := ChooseTarget(table, peers, replies, times, value, self, leftover, others);
    table.PerformAll(others(|peers|));
    code, printed, executions, fs :=
      ConnectAndRun(task, useLocal, bestIp, bestPort, localIp, ownPort, net, cluster, monitor, interrupts);
  }

  /** However it was settled, at most one task ran, and only a task that ran gives a result other than -1. */
  lemma SettledOnce(task: Task, node: Ip, link: Option<Link>, cluster: Cluster, executions: seq<Execution>,
                    code: int, printed: seq<Byte>, fs: seq<Frame>)
    requires Settled(task, node, link, cluster, executions, code, printed, fs)
    ensures |executions| <= 1 && -1 <= code <= 255
    ensures code != -1 ==> executions == [Execution(node, task)] && printed == JobOutput(cluster(node)(task))
  {}

  lemma {:induction false} ListedBounded(s: seq<Peer>)
    ensures |Listed(s)| <= |s|
  {
    if s != [] {
      ListedBounded(s[..|s| - 1]);
    }
  }

  lemma CarriedTwice<T>(s: seq<T>, m: nat, n: nat)
    ensures Carried(Carried(s, m), n) == Carried(s, Min(m, n))
  {}

  lemma NothingRead()
    ensures ReadFrames(DecodeAll([])) == Outcome([], None)
  {}

  /** Of one task message, cut twice on its way, the worker sees that task or none; and none if it was cut. */
  lemma OneTaskSent(task: Task, out: nat, arriving: nat)
    requires InLimits(task)
    ensures var f := Frame(MSG_TASK_FILE, EncodeTask(task));
            var k := Min(out, arriving);
            && Carried(Carried([] + Encode(f), out), arriving) == Carried(Encode(f), k)
            && Worker.TaskOf(Carried(Encode(f), k)) == if k < |Encode(f)| then None else Some(task)
  {
    var f := Frame(MSG_TASK_FILE, EncodeTask(task));
    var k := Min(out, arriving);
    assert [] + Encode(f) == Encode(f);
    CarriedTwice(Encode(f), out, arriving);
    if k < |Encode(f)| {
      CutFrame(f, k);
    } else {
      assert Encode(f) == Encode(f) + [];
      DecodeEncode(f, []);
      assert EncodeTask(task) == EncodeTask(task) + [];
      EncodingParses(task, []);
    }
  }
}
