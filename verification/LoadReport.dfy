/**
 * The MSG_LOAD_RESP datagram: packed by the load responder, unpacked by whoever asked.
 */
module LoadReport {
  import opened Bytes
  import opened Common
  import opened Framing

  const REPORT_SIZE: nat := 16

  // the query's receive buffer; recv truncates longer datagrams to it
  const REPLY_BUF: nat := HEADER_SIZE + REPORT_SIZE + 8

  /** A node's load; the percentage is the bit pattern of a float. */
  datatype Report = Report(loadPct: uint32, activeTasks: uint32, totalTasks: uint32, numCores: uint32)

  function Pack(r: Report): (b: seq<Byte>)
    ensures |b| == REPORT_SIZE
  {
    BE32(r.loadPct) + BE32(r.activeTasks) + BE32(r.totalTasks) + BE32(r.numCores)
  }

  function Unpack(b: seq<Byte>): Report
    requires |b| == REPORT_SIZE
  {
    Report(FromBE32(b[..4]), FromBE32(b[4..8]), FromBE32(b[8..12]), FromBE32(b[12..16]))
  }

  /** What the responder sends back to a datagram: nothing unless it is a MSG_LOAD_REQ with a whole header. */
  function Respond(request: seq<Byte>, load: Report): Option<seq<Byte>> {
    if |request| < HEADER_SIZE || request[0] != MSG_LOAD_REQ then None
    else Some(Header(MSG_LOAD_RESP, REPORT_SIZE) + Pack(load))
  }

  /** The report in a reply, if the reply is long enough and of the right kind. */
  function ReadReply(reply: seq<Byte>): Option<Report> {
    if |reply| < HEADER_SIZE + REPORT_SIZE || reply[0] != MSG_LOAD_RESP then None
    else Some(Unpack(reply[HEADER_SIZE..HEADER_SIZE + REPORT_SIZE]))
  }

  lemma Fields<T>(a: seq<T>, b: seq<T>, c: seq<T>, d: seq<T>)
    requires |a| == |b| == |c| == |d| == 4
    ensures var s := a + b + c + d; s[..4] == a && s[4..8] == b && s[8..12] == c && s[12..16] == d
  {}

  lemma UnpackPack(r: Report)
    ensures Unpack(Pack(r)) == r
  {
    Fields(BE32(r.loadPct), BE32(r.activeTasks), BE32(r.totalTasks), BE32(r.numCores));
    BE32RoundTrip(r.loadPct);
    BE32RoundTrip(r.activeTasks);
    BE32RoundTrip(r.totalTasks);
    BE32RoundTrip(r.numCores);
    hide BE32, FromBE32;
  }

  /** The querier's request is answered, and the answer carries every 32-bit pattern across unchanged. */
  lemma ReportRoundTrip(load: Report)
    ensures var reply := Respond(Header(MSG_LOAD_REQ, 0), load);
            && reply.Some?
            && |reply.value| <= REPLY_BUF
            && ReadReply(Carried(reply.value, REPLY_BUF)) == Some(load)
  {
    var packet := Header(MSG_LOAD_RESP, REPORT_SIZE) + Pack(load);
    assert packet[HEADER_SIZE..HEADER_SIZE + REPORT_SIZE] == Pack(load);
    UnpackPack(load);
  }

  /** The report, byte by byte. */
  lemma ReportBytes(r: Report)
    ensures Pack(r)[..4] == BE32(r.loadPct) && Pack(r)[4..8] == BE32(r.activeTasks)
    ensures Pack(r)[8..12] == BE32(r.totalTasks) && Pack(r)[12..] == BE32(r.numCores)
  {
    Fields(BE32(r.loadPct), BE32(r.activeTasks), BE32(r.totalTasks), BE32(r.numCores));
  }

  /** Exactly the replies a querier accepts: type 4 and room for a whole report, whatever else is in it. */
  lemma AcceptedReplies(reply: seq<Byte>, r: Report)
    ensures ReadReply(reply) == Some(r) <==> |reply| >= 24 && reply[0] == 4 && reply[8..24] == Pack(r)
  {
    if |reply| >= 24 {
      PackUnpack(reply[8..24]);
    }
    UnpackPack(r);
  }

  lemma PackUnpack(b: seq<Byte>)
    requires |b| == REPORT_SIZE
    ensures Pack(Unpack(b)) == b
  {
    BE32Onto(b[..4]);
    BE32Onto(b[4..8]);
    BE32Onto(b[8..12]);
    BE32Onto(b[12..16]);
    hide BE32, FromBE32;
    assert b == b[..4] + b[4..8] + b[8..12] + b[12..16];
  }

  /** A reply the buffer had to truncate is read as if it had not been. */
  lemma TruncatedReply(datagram: seq<Byte>)
    ensures ReadReply(Carried(datagram, REPLY_BUF)) == ReadReply(datagram)
  {
    if |datagram| > REPLY_BUF {
      assert datagram[..REPLY_BUF][HEADER_SIZE..HEADER_SIZE + REPORT_SIZE]
          == datagram[HEADER_SIZE..HEADER_SIZE + REPORT_SIZE];
    }
  }
}
