/**
 * send_all, recv_all, send_msg and recv_msg over a kernel that moves as few bytes as it likes.
 */
module NetUtils {
  import opened Bytes
  import opened Framing

  datatype IoResult = Moved(count: nat) | Interrupted | Broken

  /**
   * One endpoint of a TCP connection. How far each direction gets is fixed but arbitrary: outwards the
   * connection breaks for good once it has carried `capacity` bytes, inwards it delivers `incoming` and then
   * end-of-file or an error. How many bytes a single call moves, and when a signal interrupts one, is left to
   * the kernel; it interrupts finitely often.
   */
  class Socket {
    const capacity: nat
    var sent: seq<Byte>
    var incoming: seq<Byte>
    var interrupts: nat

    ghost predicate Valid()
      reads this
    {
      |sent| <= capacity
    }

    constructor (capacity: nat, incoming: seq<Byte>, interrupts: nat)
      ensures Valid()
      ensures this.capacity == capacity && sent == []
      ensures this.incoming == incoming && this.interrupts == interrupts
    {
      this.capacity := capacity;
      this.sent := [];
      this.incoming := incoming;
      this.interrupts := interrupts;
    }

    method Send(data: seq<Byte>) returns (r: IoResult)
      requires Valid() && data != []
      modifies this`sent, this`interrupts
      ensures Valid()
      ensures r.Moved? ==>
                && 1 <= r.count <= |data|
                && sent == old(sent) + data[..r.count] && interrupts == old(interrupts)
      ensures r.Interrupted? ==> sent == old(sent) && interrupts < old(interrupts)
      ensures r.Broken? ==> sent == old(sent) && interrupts == old(interrupts) && |sent| == capacity
    {
      if
      case interrupts > 0 =>
        interrupts := interrupts - 1;
        r := Interrupted;
      case |sent| == capacity =>
        r := Broken;
      case |sent| < capacity =>
        var room := capacity - |sent|;
        var n: nat :| 1 <= n <= |data| && n <= room;
        sent := sent + data[..n];
        r := Moved(n);
    }

    method Recv(dst: array<Byte>, at: nat, max: nat) returns (r: IoResult)
      requires max >= 1 && at + max <= dst.Length
      modifies this`incoming, this`interrupts, dst
      ensures r.Moved? ==>
                && 1 <= r.count <= max && r.count <= |old(incoming)|
                && incoming == old(incoming[r.count..]) && interrupts == old(interrupts)
                && dst[..] == old(dst[..at]) + old(incoming)[..r.count] + old(dst[..])[at + r.count..]
      ensures r.Interrupted? ==> incoming == old(incoming) && interrupts < old(interrupts) && dst[..] == old(dst[..])
      ensures r.Broken? ==> incoming == old(incoming) == [] && interrupts == old(interrupts) && dst[..] == old(dst[..])
    {
      if
      case interrupts > 0 =>
        interrupts := interrupts - 1;
        r := Interrupted;
      case incoming == [] =>
        r := Broken;
      case incoming != [] =>
        var n: nat :| 1 <= n <= max && n <= |incoming|;
        forall i | 0 <= i < n {
          dst[at + i] := incoming[i];
        }
        incoming := incoming[n..];
        r := Moved(n);
    }
  }

  /**
   * True exactly when all of `buf` got through; otherwise the prefix up to the point where the connection
   * broke did. Terminates because each turn either moves a byte or uses up an interruption.
   */
  method SendAll(fd: Socket, buf: seq<Byte>) returns (ok: bool)
    requires fd.Valid()
    modifies fd`sent, fd`interrupts
    ensures fd.Valid()
    ensures ok <==> |old(fd.sent)| + |buf| <= fd.capacity
    ensures fd.sent == Carried(old(fd.sent) + buf, fd.capacity)
  {
    var sent := 0;
    while sent < |buf|
      invariant 0 <= sent <= |buf|
      invariant fd.Valid()
      invariant fd.sent == old(fd.sent) + buf[..sent]
      decreases |buf| - sent, fd.interrupts
    {
      var r := fd.Send(buf[sent..]);
      match r
      case Interrupted => continue;
      case Broken => return false;
      case Moved(n) =>
        assert buf[..sent] + buf[sent..][..n] == buf[..sent + n];
        sent := sent + n;
    }
    assert buf[..sent] == buf;
    return true;
  }

  lemma PartReceived(stream: seq<Byte>, was: seq<Byte>, now: seq<Byte>, got: nat, n: nat, len: nat)
    requires got + n <= len <= |was| && got + n <= |stream| && was[..got] == stream[..got]
    requires now == was[..got] + stream[got..][..n] + was[got + n..]
    ensures stream[got..][n..] == stream[got + n..]
    ensures |now| == |was| && now[..got + n] == stream[..got + n] && now[len..] == was[len..]
  {}

  /** True exactly when `len` bytes arrived, in order, at the front of `buf`; false only at end of stream. */
  method RecvAll(fd: Socket, buf: array<Byte>, len: nat) returns (ok: bool)
    requires len <= buf.Length
    modifies fd`incoming, fd`interrupts, buf
    ensures ok <==> len <= |old(fd.incoming)|
    ensures ok ==> fd.incoming == old(fd.incoming[len..]) && buf[..len] == old(fd.incoming)[..len]
    ensures !ok ==> fd.incoming == [] && buf[..|old(fd.incoming)|] == old(fd.incoming)
    ensures buf[len..] == old(buf[len..])
  {
    var got := 0;
    ghost var stream := fd.incoming;
    while got < len
      invariant 0 <= got <= len && got <= |stream|
      invariant fd.incoming == stream[got..]
      invariant buf[..got] == stream[..got]
      invariant buf[len..] == old(buf[len..])
      decreases len - got, fd.interrupts
    {
      ghost var was := buf[..];
      var r := fd.Recv(buf, got, len - got);
      match r
      case Interrupted =>
        assert buf[..] == was;
        continue;
      case Broken =>
        assert buf[..] == was;
        return false;
      case Moved(n) =>
        PartReceived(stream, was, buf[..], got, n, len);
        assert buf[..got + n] == buf[..][..got + n] && buf[len..] == buf[..][len..];
        got := got + n;
    }
    return true;
  }

  /** Header, then payload; the wire holds the encoded frame as far as the connection carried it. */
  method SendMsg(fd: Socket, kind: Byte, payload: Payload) returns (ok: bool)
    requires fd.Valid()
    modifies fd`sent, fd`interrupts
    ensures fd.Valid()
    ensures ok <==> |old(fd.sent) + Encode(Frame(kind, payload))| <= fd.capacity
    ensures fd.sent == Carried(old(fd.sent) + Encode(Frame(kind, payload)), fd.capacity)
  {
    var hdr := [kind, 0] + BE32(|payload|) + [0, 0];
    ok := SendAll(fd, hdr);
    assert old(fd.sent) + Encode(Frame(kind, payload)) == old(fd.sent) + hdr + payload;
    if !ok {
      return false;
    }
    if |payload| > 0 {
      ok := SendAll(fd, payload);
      if !ok {
        return false;
      }
    }
    return true;
  }

  /** The bytes a failing recv_msg leaves unread: none, unless it refused the announced length. */
  function LeftByFailure(s: seq<Byte>): (left: seq<Byte>)
    requires Decode(s).Failed?
    ensures if |s| >= 8
               && 16777216 * (s[2] as int) + 65536 * (s[3] as int) + 256 * (s[4] as int) + s[5] > 4194568
            then left == s[8..] else left == []
  {
    HostOrder(if |s| >= 8 then s[2..6] else []);
    if |s| >= HEADER_SIZE && AnnouncedLength(s) > PAYLOAD_GUARD then s[HEADER_SIZE..] else []
  }

  /**
   * Whatever the fragmentation, the outcome is the one Decode gives for the bytes to come. A failure leaves none of
   * them unread, unless the announced length was refused.
   */
  method RecvMsg(fd: Socket) returns (r: Option<Frame>)
    modifies fd`incoming, fd`interrupts
    ensures match Decode(old(fd.incoming))
            case Got(f, rest) => r == Some(f) && fd.incoming == rest
            case Failed => r == None && fd.incoming == LeftByFailure(old(fd.incoming))
  {
    ghost var stream := fd.incoming;
    var hdr := new Byte[8];
    var ok := RecvAll(fd, hdr, 8);
    if !ok {
      return None;
    }
    assert hdr[..] == hdr[..8] == stream[..8];
    var plen := FromBE32(hdr[2..6]);
    assert hdr[2..6] == stream[2..6];
    if plen > 0 {
      if plen > PAYLOAD_GUARD {
        return None;
      }
      var payload := new Byte[plen + 1];
      payload[plen] := 0;
      ok := RecvAll(fd, payload, plen);
      if !ok {
        return None;
      }
      assert stream[8..][..plen] == stream[8..8 + plen];
      assert stream[8..][plen..] == stream[8 + plen..];
      return Some(Frame(hdr[0], payload[..plen]));
    }
    return Some(Frame(hdr[0], []));
  }
}
