/**
 * The 8-byte message frame: what send_msg puts on the wire and what recv_msg makes of a stream of bytes.
 */
module Framing {
  import opened Bytes
  import opened Common

  const HEADER_SIZE: nat := 8

  // recv_msg refuses longer payloads
  const PAYLOAD_GUARD: nat := MAX_FILE_SIZE + MAX_FILENAME_LEN + 8

  // payload_len is a uint32_t parameter
  type Payload = p: seq<Byte> | |p| < 0x1_0000_0000 witness []

  datatype Frame = Frame(kind: Byte, payload: Payload)

  predicate Sendable(f: Frame) {
    |f.payload| <= PAYLOAD_GUARD
  }

  ghost predicate AllSendable(fs: seq<Frame>) {
    forall i :: 0 <= i < |fs| ==> Sendable(fs[i])
  }

  function Header(kind: Byte, len: uint32): (h: seq<Byte>)
    ensures |h| == HEADER_SIZE
  {
    [kind, 0] + BE32(len) + [0, 0]
  }

  function Encode(f: Frame): (s: seq<Byte>)
    ensures |s| == HEADER_SIZE + |f.payload|
  {
    Header(f.kind, |f.payload|) + f.payload
  }

  function EncodeAll(fs: seq<Frame>): seq<Byte> {
    if fs == [] then [] else Encode(fs[0]) + EncodeAll(fs[1..])
  }

  /** The payload length that a received header announces. */
  function AnnouncedLength(h: seq<Byte>): uint32
    requires |h| >= HEADER_SIZE
  {
    FromBE32(h[2..6])
  }

  /** What one recv_msg makes of the bytes still to come: a frame and the rest, or -1. */
  datatype Parsed = Got(frame: Frame, rest: seq<Byte>) | Failed

  function Decode(s: seq<Byte>): (r: Parsed)
    ensures r.Got? ==> |s| == HEADER_SIZE + |r.frame.payload| + |r.rest|
  {
    if |s| < HEADER_SIZE then Failed
    else
      var plen := AnnouncedLength(s);
      if plen > PAYLOAD_GUARD || |s| < HEADER_SIZE + plen then Failed
      else Got(Frame(s[0], s[HEADER_SIZE..HEADER_SIZE + plen]), s[HEADER_SIZE + plen..])
  }

  /** The frames that successive recv_msg calls return before the first -1. */
  function DecodeAll(s: seq<Byte>): seq<Frame>
    decreases |s|
  {
    match Decode(s)
    case Failed => []
    case Got(f, rest) => [f] + DecodeAll(rest)
  }

  // ------------------------------------------------------------ one frame

  lemma HeaderAnnounces(kind: Byte, len: uint32, tail: seq<Byte>)
    ensures (Header(kind, len) + tail)[0] == kind
    ensures AnnouncedLength(Header(kind, len) + tail) == len
  {
    assert (Header(kind, len) + tail)[2..6] == BE32(len);
    BE32RoundTrip(len);
  }

  /** recv_msg undoes send_msg and consumes exactly 8 + payload_len bytes. */
  lemma DecodeEncode(f: Frame, tail: seq<Byte>)
    requires Sendable(f)
    ensures Decode(Encode(f) + tail) == Got(f, tail)
  {
    HeaderAnnounces(f.kind, |f.payload|, f.payload + tail);
    assert Encode(f) + tail == Header(f.kind, |f.payload|) + (f.payload + tail);
  }

  /** A frame cut before its last byte is never delivered, not even in part. */
  lemma CutFrame(f: Frame, k: nat)
    requires k < |Encode(f)|
    ensures Decode(Encode(f)[..k]).Failed?
  {
    if k >= HEADER_SIZE {
      HeaderAnnounces(f.kind, |f.payload|, f.payload[..k - HEADER_SIZE]);
      assert Encode(f)[..k] == Header(f.kind, |f.payload|) + f.payload[..k - HEADER_SIZE];
    }
  }

  /** The wire image of a frame whose sender filled the reserved fields in some other way. */
  function LooseImage(f: Frame, flags: Byte, r0: Byte, r1: Byte): seq<Byte> {
    [f.kind, flags] + BE32(|f.payload|) + [r0, r1] + f.payload
  }

  /** Exactly what recv_msg accepts: the guard is its only check, and the reserved fields are free. */
  lemma AcceptedStreams(s: seq<Byte>, f: Frame, rest: seq<Byte>)
    ensures Decode(s) == Got(f, rest) <==>
            Sendable(f) && exists flags: Byte, r0: Byte, r1: Byte :: s == LooseImage(f, flags, r0, r1) + rest
  {
    if Decode(s) == Got(f, rest) {
      BE32Onto(s[2..6]);
      assert s == LooseImage(f, s[1], s[6], s[7]) + rest;
    }
    forall flags: Byte, r0: Byte, r1: Byte | Sendable(f) && s == LooseImage(f, flags, r0, r1) + rest
      ensures Decode(s) == Got(f, rest)
    {
      assert s[2..6] == BE32(|f.payload|);
      BE32RoundTrip(|f.payload|);
      assert s[HEADER_SIZE..HEADER_SIZE + |f.payload|] == f.payload;
      assert s[HEADER_SIZE + |f.payload|..] == rest;
    }
  }

  /** A frame on the wire, byte by byte: type, flags, length with the most significant byte first, reserved. */
  lemma FrameBytes(f: Frame, flags: Byte, r0: Byte, r1: Byte)
    ensures var n := |f.payload|;
            var len := [n / 16777216, n / 65536 % 256, n / 256 % 256, n % 256];
            && Encode(f) == [f.kind, 0] + len + [0, 0] + f.payload
            && LooseImage(f, flags, r0, r1) == [f.kind, flags] + len + [r0, r1] + f.payload
  {
    NetworkOrder(|f.payload|);
    hide BE32;
  }

  /** What recv_msg accepts, byte by byte: any type, and at most 4 MB + 264 bytes of payload. */
  lemma ReceivedBytes(s: seq<Byte>, f: Frame, rest: seq<Byte>)
    ensures Decode(s) == Got(f, rest) <==>
            && |s| >= 8 && s[0] == f.kind
            && 16777216 * (s[2] as int) + 65536 * (s[3] as int) + 256 * (s[4] as int) + s[5] == |f.payload|
            && |f.payload| <= 4194568
            && s[8..] == f.payload + rest
  {
    if |s| >= 8 {
      HostOrder(s[2..6]);
      if |s| >= 8 + |f.payload| {
        assert s[8..] == s[8..8 + |f.payload|] + s[8 + |f.payload|..];
      }
      if s[8..] == f.payload + rest {
        assert s[8..][..|f.payload|] == f.payload && s[8..][|f.payload|..] == rest;
      }
    }
  }

  // ------------------------------------------------------------ a stream of frames

  lemma {:induction false} EncodeAllAppend(a: seq<Frame>, b: seq<Frame>)
    ensures EncodeAll(a + b) == EncodeAll(a) + EncodeAll(b)
  {
    if a == [] {
      assert a + b == b;
    } else {
      assert (a + b)[1..] == a[1..] + b;
      EncodeAllAppend(a[1..], b);
    }
  }

  lemma EncodeOne(f: Frame)
    ensures EncodeAll([f]) == Encode(f)
  {
    assert EncodeAll([f]) == Encode(f) + EncodeAll([]);
  }

  /** How many frames of `fs` lie wholly within the first `k` bytes of their stream. */
  function CompleteFrames(fs: seq<Frame>, k: nat): (j: nat)
    ensures j <= |fs|
    ensures |EncodeAll(fs[..j])| <= k
    ensures j < |fs| ==> k < |EncodeAll(fs[..j + 1])|
  {
    if fs == [] then 0
    else if k < |Encode(fs[0])| then
      assert fs[..1] == [fs[0]];
      0
    else
      var j := CompleteFrames(fs[1..], k - |Encode(fs[0])|);
      assert fs[..1 + j][1..] == fs[1..][..j];
      assert j < |fs[1..]| ==> fs[..1 + j + 1][1..] == fs[1..][..j + 1];
      1 + j
  }

  lemma FirstCut(f: Frame, more: seq<Byte>, k: nat)
    requires k < |Encode(f)|
    ensures DecodeAll(Carried(Encode(f) + more, k)) == []
  {
    assert Carried(Encode(f) + more, k) == Encode(f)[..k];
    CutFrame(f, k);
  }

  lemma FirstComplete(f: Frame, more: seq<Byte>, k: nat)
    requires Sendable(f) && k >= |Encode(f)|
    ensures DecodeAll(Carried(Encode(f) + more, k)) == [f] + DecodeAll(Carried(more, k - |Encode(f)|))
  {
    assert Carried(Encode(f) + more, k) == Encode(f) + Carried(more, k - |Encode(f)|);
    DecodeEncode(f, Carried(more, k - |Encode(f)|));
  }

  /**
   * Framing over a cut stream: however many messages were sent, and at whatever byte the stream stops,
   * the receiver gets exactly the complete messages before the cut and then -1.
   */
  lemma {:induction false} CutStream(fs: seq<Frame>, k: nat)
    requires AllSendable(fs)
    ensures DecodeAll(Carried(EncodeAll(fs), k)) == fs[..CompleteFrames(fs, k)]
  {
    if fs == [] {
    } else if k < |Encode(fs[0])| {
      FirstCut(fs[0], EncodeAll(fs[1..]), k);
    } else {
      var k' := k - |Encode(fs[0])|;
      FirstComplete(fs[0], EncodeAll(fs[1..]), k);
      CutStream(fs[1..], k');
      assert fs[..CompleteFrames(fs, k)] == [fs[0]] + fs[1..][..CompleteFrames(fs[1..], k')];
    }
  }

  lemma AllComplete(fs: seq<Frame>, k: nat)
    ensures CompleteFrames(fs, k) == |fs| <==> |EncodeAll(fs)| <= k
  {
    var j := CompleteFrames(fs, k);
    if j < |fs| {
      assert fs == fs[..j + 1] + fs[j + 1..];
      EncodeAllAppend(fs[..j + 1], fs[j + 1..]);
    } else {
      assert fs[..j] == fs;
    }
  }

  /** The whole stream gives back the whole list of messages. */
  lemma WholeStream(fs: seq<Frame>)
    requires AllSendable(fs)
    ensures DecodeAll(EncodeAll(fs)) == fs
  {
    var k := |EncodeAll(fs)|;
    CutStream(fs, k);
    AllComplete(fs, k);
    assert fs[..|fs|] == fs;
  }
}
