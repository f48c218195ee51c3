/**
 * The load responder's turn: one request datagram, one report of this node's load.
 */
module Responder {
  import opened Bytes
  import opened Common
  import opened Framing
  import opened LoadMonitor
  import opened LoadReport
  import opened Discovery

  const REQUEST_BUF: nat := HEADER_SIZE + 16

  /** What is answered, and the answer byte by byte. */
  lemma Answered(request: seq<Byte>, load: Report)
    ensures Respond(request, load).Some? <==> |request| >= 8 && request[0] == 3
    ensures Respond(request, load).Some? ==>
              Respond(request, load).value
              == [4, 0, 0, 0, 0, 16, 0, 0]
                 + (BE32(load.loadPct) + BE32(load.activeTasks) + BE32(load.totalTasks) + BE32(load.numCores))
    ensures forall kind: Byte, port: uint16, host: Hostname ::
              (kind == 1 || kind == 2) && request == Packet(kind, port, host) ==> Respond(request, load) == None
  {
    NetworkOrder(16);
    hide BE32;
  }

  /**
   * `pct` is the bit pattern of the load percentage; the reply goes back to where the request came from. Exactly
   * the datagrams with a whole header of type 3 are answered. The port is shared with discovery, but its
   * broadcasts get no answer.
   */
  method AnswerRequest(datagram: seq<Byte>, pct: uint32, monitor: Monitor, online: uint32)
    returns (reply: Option<seq<Byte>>)
    ensures reply == Respond(datagram, Report(pct, monitor.active, monitor.total, CoreCount(online)))
    ensures reply.Some? <==> |datagram| >= 8 && datagram[0] == 3
    ensures reply.Some? ==>
              reply.value == [4, 0, 0, 0, 0, 16, 0, 0]
                             + (BE32(pct) + BE32(monitor.active) + BE32(monitor.total)
                                + BE32(if online == 0 then 1 else online))
    ensures forall kind: Byte, port: uint16, host: Hostname ::
              (kind == 1 || kind == 2) && datagram == Packet(kind, port, host) ==> reply == None
  {
    Answered(datagram, Report(pct, monitor.active, monitor.total, CoreCount(online)));
    hide Packet;
    var buf := if |datagram| <= REQUEST_BUF then datagram else datagram[..REQUEST_BUF];
    if |buf| < HEADER_SIZE {
      return None;
    }
    if buf[0] != MSG_LOAD_REQ {
      return None;
    }
    var resp := BE32(pct);
    resp := resp + BE32(monitor.active);
    resp := resp + BE32(monitor.total);
    resp := resp + BE32(CoreCount(online));
    var pkt := [MSG_LOAD_RESP, 0] + BE32(|resp|) + [0, 0];
    pkt := pkt + resp;
    return Some(pkt);
  }
}
