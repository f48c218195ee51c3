/** Bytes, the C integer widths the protocol uses, and network byte order. */
module Bytes {

  type Byte = b: int | 0 <= b < 256
  type uint16 = n: int | 0 <= n < 0x1_0000
  type uint32 = n: int | 0 <= n < 0x1_0000_0000

  function BE16(n: uint16): (b: seq<Byte>)
    ensures |b| == 2
  {
    [n / 0x100, n % 0x100]
  }

  function FromBE16(b: seq<Byte>): uint16
    requires |b| == 2
  {
    (b[0] as int) * 0x100 + b[1]
  }

  function BE32(n: uint32): (b: seq<Byte>)
    ensures |b| == 4
  {
    BE16(n / 0x1_0000) + BE16(n % 0x1_0000)
  }

  function FromBE32(b: seq<Byte>): uint32
    requires |b| == 4
  {
    (FromBE16(b[..2]) as int) * 0x1_0000 + FromBE16(b[2..])
  }

  lemma BE16RoundTrip(n: uint16)
    ensures FromBE16(BE16(n)) == n
  {}

  lemma BE32RoundTrip(n: uint32)
    ensures FromBE32(BE32(n)) == n
  {
    var hi, lo := n / 0x1_0000, n % 0x1_0000;
    assert BE32(n)[..2] == BE16(hi) && BE32(n)[2..] == BE16(lo);
    BE16RoundTrip(hi);
    BE16RoundTrip(lo);
  }

  /** Network order is a bijection: no pattern of two or four bytes is lost or merged with another. */
  lemma BE16Onto(b: seq<Byte>)
    requires |b| == 2
    ensures BE16(FromBE16(b)) == b
  {}

  lemma BE32Onto(b: seq<Byte>)
    requires |b| == 4
    ensures BE32(FromBE32(b)) == b
  {
    BE16Onto(b[..2]);
    BE16Onto(b[2..]);
    assert b == b[..2] + b[2..];
  }

  /** The most significant byte comes first. */
  lemma NetworkOrder(n: uint32)
    ensures BE32(n) == [n / 16777216, n / 65536 % 256, n / 256 % 256, n % 256]
    ensures n < 65536 ==> BE16(n) == [n / 256, n % 256]
  {
    var a, b, c, d := n / 65536 / 256, n / 65536 % 256, n % 65536 / 256, n % 65536 % 256;
    Digits(a, b, c, d);
    assert n == 16777216 * a + 65536 * b + 256 * c + d;
  }

  lemma Digits(a: int, b: int, c: int, d: int)
    requires 0 <= b < 256 && 0 <= c < 256 && 0 <= d < 256
    ensures var n := 16777216 * a + 65536 * b + 256 * c + d;
            n / 16777216 == a && n / 65536 % 256 == b && n / 256 % 256 == c && n % 256 == d
  {
    var n := 16777216 * a + 65536 * b + 256 * c + d;
    assert n / 65536 == 256 * a + b;
    assert n / 256 == 65536 * a + 256 * b + c;
  }

  lemma HostOrder(b: seq<Byte>)
    ensures |b| == 2 ==> FromBE16(b) == 256 * (b[0] as int) + b[1]
    ensures |b| == 4 ==>
              FromBE32(b) == 16777216 * (b[0] as int) + 65536 * (b[1] as int) + 256 * (b[2] as int) + b[3]
  {}

  /** (int)(int32_t)u: a 32-bit pattern read as a two's complement number. */
  function AsInt32(u: uint32): (i: int)
    ensures -0x8000_0000 <= i < 0x8000_0000
    ensures (i - u) % 0x1_0000_0000 == 0
  {
    if u < 0x8000_0000 then u else u - 0x1_0000_0000
  }

  ghost predicate IsPrefix<T>(a: seq<T>, b: seq<T>): (r: bool)
    ensures r <==> a <= b
  {
    |a| <= |b| && a == b[..|a|]
  }

  /** What is left of `s` when the line goes dead after `n` bytes. */
  function Carried<T>(s: seq<T>, n: nat): (r: seq<T>)
    ensures r <= s
    ensures |r| == if |s| <= n then |s| else n
  {
    if |s| <= n then s else s[..n]
  }

  /** Cutting a stream, appending to it and cutting again is one cut. */
  lemma CarriedAppend<T>(a: seq<T>, b: seq<T>, n: nat)
    ensures Carried(Carried(a, n) + b, n) == Carried(a + b, n)
  {}

  datatype Option<+T> = None | Some(value: T)
}
