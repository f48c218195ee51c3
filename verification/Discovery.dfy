/**
 * Discovery: the HELLO and BYE packets, and what the listener does with a datagram.
 */
module Discovery {
  import opened Bytes
  import opened Common
  import opened Framing
  import opened LoadReport
  import opened PeerList

  const HELLO_SIZE: nat := 2 + MAX_HOSTNAME_LEN

  // the listener's receive buffer; recvfrom truncates longer datagrams to it
  const PACKET_BUF: nat := HEADER_SIZE + HELLO_SIZE + 16

  // gethostname is given one byte less than the zeroed field
  type Hostname = h: seq<Byte> | |h| < MAX_HOSTNAME_LEN witness []

  function BuildHello(port: uint16, host: Hostname): (h: seq<Byte>)
    ensures |h| == HELLO_SIZE
  {
    BE16(port) + host + seq(MAX_HOSTNAME_LEN - |host|, _ => 0)
  }

  function Packet(kind: Byte, port: uint16, host: Hostname): (p: seq<Byte>)
    ensures |p| == HEADER_SIZE + HELLO_SIZE
  {
    Header(kind, HELLO_SIZE) + BuildHello(port, host)
  }

  /** The packet, byte by byte: header, port with the most significant byte first, host name padded to 64 bytes. */
  lemma PacketBytes(kind: Byte, port: uint16, host: Hostname)
    ensures Packet(kind, port, host)
         == [kind, 0, 0, 0, 0, 66, 0, 0] + [port / 256, port % 256] + host + seq(64 - |host|, _ => 0)
  {
    NetworkOrder(66);
    NetworkOrder(port);
    hide BE16, BE32;
  }

  datatype Notice = Hello(port: uint16) | Bye | Ignored

  /** What the listener takes a received packet to say. */
  function ReadPacket(b: seq<Byte>): Notice {
    if |b| < HEADER_SIZE then Ignored
    else
      var plen := AnnouncedLength(b);
      if |b| < HEADER_SIZE + plen then Ignored
      else if b[0] == MSG_HELLO then
        if plen < HELLO_SIZE then Ignored else Hello(FromBE16(b[HEADER_SIZE..HEADER_SIZE + 2]))
      else if b[0] == MSG_BYE then Bye
      else Ignored
  }

  /** Every broadcast survives the receive buffer and is read for what it is, with the sender's own port. */
  lemma PacketRoundTrip(kind: Byte, port: uint16, host: Hostname)
    ensures ReadPacket(Carried(Packet(kind, port, host), PACKET_BUF))
         == if kind == MSG_HELLO then Hello(port) else if kind == MSG_BYE then Bye else Ignored
  {
    var p := Packet(kind, port, host);
    HeaderAnnounces(kind, HELLO_SIZE, BuildHello(port, host));
    assert p[HEADER_SIZE..HEADER_SIZE + 2] == BE16(port);
    BE16RoundTrip(port);
  }

  /** What the listener acts on, byte by byte. */
  lemma ReadBytes(b: seq<Byte>, port: uint16)
    ensures var plen := if |b| < 8 then 0
                        else 16777216 * (b[2] as int) + 65536 * (b[3] as int) + 256 * (b[4] as int) + b[5];
            && (ReadPacket(b) == Hello(port) <==>
                  && |b| >= 8 + plen && plen >= 66
                  && b[0] == 1 && 256 * (b[8] as int) + b[9] == port)
            && (ReadPacket(b) == Bye <==> |b| >= 8 && |b| >= 8 + plen && b[0] == 2)
  {
    if |b| >= 8 {
      HostOrder(b[2..6]);
      if |b| >= 10 {
        HostOrder(b[8..10]);
      }
    }
  }

  /** `b` begins with a complete message of this kind and payload, whatever its reserved fields. */
  ghost predicate Carries(b: seq<Byte>, kind: Byte, payload: Payload) {
    exists flags: Byte, r0: Byte, r1: Byte ::
      IsPrefix(LooseImage(Frame(kind, payload), flags, r0, r1), b)
  }

  predicate Announces(b: seq<Byte>, kind: Byte, payload: Payload) {
    && |b| >= HEADER_SIZE + |payload|
    && b[0] == kind && AnnouncedLength(b) == |payload|
    && b[HEADER_SIZE..HEADER_SIZE + |payload|] == payload
  }

  lemma CarriesAnnounced(b: seq<Byte>, kind: Byte, payload: Payload)
    requires Carries(b, kind, payload)
    ensures Announces(b, kind, payload)
  {
    var flags: Byte, r0: Byte, r1: Byte :| IsPrefix(LooseImage(Frame(kind, payload), flags, r0, r1), b);
    var image := LooseImage(Frame(kind, payload), flags, r0, r1);
    assert image == b[..|image|];
    assert b[2..6] == b[..|image|][2..6];
    assert image[2..6] == BE32(|payload|);
    BE32RoundTrip(|payload|);
    assert b[HEADER_SIZE..HEADER_SIZE + |payload|] == b[..|image|][HEADER_SIZE..];
    assert image[HEADER_SIZE..] == payload;
  }

  lemma AnnouncedCarries(b: seq<Byte>, kind: Byte, payload: Payload)
    requires Announces(b, kind, payload)
    ensures Carries(b, kind, payload)
  {
    BE32Onto(b[2..6]);
    assert b[..HEADER_SIZE + |payload|] == LooseImage(Frame(kind, payload), b[1], b[6], b[7]);
  }

  /**
   * Exactly what the listener acts on: a complete HELLO message whose payload has room for the port and the host
   * name, and a complete BYE message with any payload; what follows the message is ignored.
   */
  lemma AcceptedPackets(b: seq<Byte>, port: uint16)
    ensures ReadPacket(b) == Hello(port) <==>
            exists payload: Payload ::
              |payload| >= 66 && payload[..2] == BE16(port) && Carries(b, 1, payload)
    ensures ReadPacket(b) == Bye <==> exists payload: Payload :: Carries(b, 2, payload)
  {
    hide Carries;
    if |b| >= HEADER_SIZE && |b| >= HEADER_SIZE + AnnouncedLength(b) {
      var payload: Payload := b[HEADER_SIZE..HEADER_SIZE + AnnouncedLength(b)];
      AnnouncedCarries(b, b[0], payload);
      if ReadPacket(b) == Hello(port) {
        BE16Onto(b[HEADER_SIZE..HEADER_SIZE + 2]);
        assert payload[..2] == b[HEADER_SIZE..HEADER_SIZE + 2];
      }
    }
    forall payload: Payload | Carries(b, MSG_HELLO, payload) && |payload| >= HELLO_SIZE && payload[..2] == BE16(port)
      ensures ReadPacket(b) == Hello(port)
    {
      CarriesAnnounced(b, MSG_HELLO, payload);
      assert b[HEADER_SIZE..HEADER_SIZE + 2] == payload[..2];
      BE16RoundTrip(port);
    }
    forall payload: Payload | Carries(b, MSG_BYE, payload)
      ensures ReadPacket(b) == Bye
    {
      CarriesAnnounced(b, MSG_BYE, payload);
    }
  }

  /** What the listener of the node at `local` makes of its table on getting a packet from `src`. */
  function Heard(s: seq<Peer>, local: Ip, src: Ip, notice: Notice, added: int, touched: int): seq<Peer> {
    match if src == local then Ignored else notice
    case Hello(port) => SlotStep(SlotStep(s, Add(src, port, added)), Touch(src, touched))
    case Bye => SlotStep(s, Remove(src))
    case Ignored => s
  }

  /**
   * What any packet does to a listener's knowledge of any address. One from the node's own address does nothing,
   * and none affects an address other than its source. After a HELLO the source is known at its new port from now
   * on and keeps its load; one that was unknown gets an entry unless the table is full. After a BYE it is unknown.
   */
  lemma {:induction false} PacketHeard(s: seq<Peer>, local: Ip, src: Ip, notice: Notice, added: int, touched: int,
                                       ip: Ip)
    requires UniqueIps(s)
    ensures var t := Heard(s, local, src, notice, added, touched);
            && UniqueIps(t)
            && Lookup(t, ip)
            == if src == local || ip != src then Lookup(s, ip)
               else match notice
                    case Ignored => Lookup(s, ip)
                    case Bye => None
                    case Hello(port) =>
                      match Lookup(s, ip)
                      case Some(p) => Some(p.(port := port, lastSeen := touched))
                      case None =>
                        if forall k :: 0 <= k < |s| ==> s[k].valid then None
                        else Some(Peer(ip, port, Report(0, 0, 0, 1), touched, true))
  {
    hide SlotStep, Lookup, UniqueIps;
    match notice
    case Hello(port) =>
      LookupStep(s, Add(src, port, added), ip);
      LookupStep(SlotStep(s, Add(src, port, added)), Touch(src, touched), ip);
    case Bye =>
      LookupStep(s, Remove(src), ip);
    case Ignored =>
  }

  /** The discovery globals. */
  class Discovery {
    var ownPort: uint16
    var localIp: Ip
    var bcastOpen: bool

    constructor ()
      ensures ownPort == 7777 && localIp == "127.0.0.1" && !bcastOpen
    {
      ownPort, localIp, bcastOpen := DEFAULT_WORKER_PORT, "127.0.0.1", false;
    }

    /**
     * discovery_start, when the broadcast socket could be made, up to the announcer's first HELLO: whoever
     * receives that reads the node's own port in it.
     */
    method Start(port: uint16, ip: Ip, host: Hostname) returns (hello: Option<seq<Byte>>)
      modifies this
      ensures ownPort == port && localIp == ip && bcastOpen
      ensures hello.Some? && ReadPacket(Carried(hello.value, PACKET_BUF)) == Hello(port)
    {
      ownPort, localIp, bcastOpen := port, ip, true;
      hello := SendBroadcast(MSG_HELLO, host);
      PacketRoundTrip(MSG_HELLO, port, host);
    }

    method SendBroadcast(kind: Byte, host: Hostname) returns (packet: Option<seq<Byte>>)
      ensures packet == if bcastOpen then Some(Packet(kind, ownPort, host)) else None
    {
      if !bcastOpen {
        return None;
      }
      var h := BuildHello(ownPort, host);
      var pkt := [kind, 0] + BE32(|h|) + [0, 0];
      pkt := pkt + h;
      return Some(pkt);
    }

    /** One turn of the listener; the clock is read once by the add and once by the touch. */
    method HandleDatagram(table: PeerTable, src: Ip, datagram: seq<Byte>, added: int, touched: int)
      requires table.Valid()
      modifies table.slots
      ensures table.slots[..] ==
              Heard(old(table.slots[..]), localIp, src, ReadPacket(Carried(datagram, 90)), added, touched)
    {
      var buf := if |datagram| <= PACKET_BUF then datagram else datagram[..PACKET_BUF];
      if |buf| < HEADER_SIZE {
        return;
      }
      var plen := FromBE32(buf[2..6]);
      if |buf| < HEADER_SIZE + plen {
        return;
      }
      if src == localIp {
        return;
      }
      if buf[0] == MSG_HELLO {
        if plen < HELLO_SIZE {
          return;
        }
        var port := FromBE16(buf[HEADER_SIZE..HEADER_SIZE + 2]);
        table.Add(src, port, added);
        table.Touch(src, touched);
      } else if buf[0] == MSG_BYE {
        table.Remove(src);
      }
    }
  }
}
