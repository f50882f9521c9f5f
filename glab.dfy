/**
 * Definitions shared by the three link-layer tools (switch, vswitch, arp):
 * octets, hardware and IPv4 addresses, `memcmp` and `memcpy` as the tools use
 * them, and the record that `forward_to` writes for every outgoing frame.
 */
module Glab {

  /** One octet of a frame. */
  type Byte = b: int | 0 <= b < 256

  /** A `uint16_t`. */
  type U16 = n: int | 0 <= n < 0x1_0000

  /** `struct MacAddress`: six octets. */
  type Mac = s: seq<Byte> | |s| == 6 witness [0, 0, 0, 0, 0, 0]

  /** `struct in_addr`: four octets in network byte order. */
  type Ip = s: seq<Byte> | |s| == 4 witness [0, 0, 0, 0]

  datatype Option<+T> = None | Some(value: T)

  datatype Result<+T, +E> = Ok(value: T) | Err(error: E)

  /** The all-zero hardware address every interface starts with (`memset` in `main`). */
  const ZERO_MAC: Mac := [0, 0, 0, 0, 0, 0]

  /** One call of `forward_to`: the egress interface number and the frame it carries. */
  datatype Emission = Emission(ifcNum: U16, frame: seq<Byte>)

  /** `sizeof (struct GLAB_MessageHeader)`: a 16-bit size and a 16-bit type. */
  const MESSAGE_HEADER_SIZE := 4

  /** `htons(n)` laid out in memory: the high octet first. */
  function Be16(n: U16): seq<Byte>
  {
    [n / 256, n % 256]
  }

  /** `ntohs` of two octets in memory order. */
  function FromBe16(hi: Byte, lo: Byte): U16
  {
    hi * 256 + lo
  }

  /**
   * The octets `forward_to` hands to `write_all`: the header (the total size,
   * truncated to the 16 bits of `hdr.size`, then the interface number, both in
   * network byte order), followed by the frame.
   */
  function Message(e: Emission): seq<Byte>
  {
    Be16((|e.frame| + MESSAGE_HEADER_SIZE) % 0x1_0000) + Be16(e.ifcNum) + e.frame
  }

  /**
   * How the receiving end splits one message: the size field must cover exactly
   * the octets given, the type field names the interface, the rest is the frame.
   */
  function ReadMessage(m: seq<Byte>): Option<Emission>
  {
    if |m| < MESSAGE_HEADER_SIZE || FromBe16(m[0], m[1]) != |m| then None
    else Some(Emission(FromBe16(m[2], m[3]), m[MESSAGE_HEADER_SIZE..]))
  }

  /**
   * Every emission whose size fits the 16-bit size field is read back as itself;
   * a larger one has its size field wrapped and is not readable.
   */
  lemma MessageRoundTrip(e: Emission)
    ensures ReadMessage(Message(e)) ==
            if |e.frame| + MESSAGE_HEADER_SIZE < 0x1_0000 then Some(e) else None
  {
    var m := Message(e);
    assert |m| == |e.frame| + MESSAGE_HEADER_SIZE;
    assert m[MESSAGE_HEADER_SIZE..] == e.frame;
  }

  /** Conversely, whatever the reader accepts is exactly the message of what it read. */
  lemma ReadMessageInverse(m: seq<Byte>)
    requires ReadMessage(m).Some?
    ensures Message(ReadMessage(m).value) == m
  {
    var e := ReadMessage(m).value;
    assert Be16(|m| % 0x1_0000) == m[..2];
    assert Be16(e.ifcNum) == m[2..4];
    assert m == m[..2] + m[2..4] + m[MESSAGE_HEADER_SIZE..];
  }

  /**
   * `memcmp(a, b, |a|)`: compares octet by octet and reports the sign of the
   * first difference (here as -1, 0 or 1); zero means the two are equal.
   */
  function MemCmp(a: seq<Byte>, b: seq<Byte>): (r: int)
    requires |a| == |b|
    ensures -1 <= r <= 1
    ensures r == 0 <==> a == b
  {
    if |a| == 0 then 0
    else if a[0] < b[0] then -1
    else if a[0] > b[0] then 1
    else
      assert a == [a[0]] + a[1..] && b == [b[0]] + b[1..];
      MemCmp(a[1..], b[1..])
  }

  /**
   * `memcpy(&dst[at], src, |src|)`: the octets of `src` land at `at` and
   * nothing else in `dst` changes.
   */
  method Memcpy(dst: array<Byte>, at: nat, src: seq<Byte>)
    requires at + |src| <= dst.Length
    modifies dst
    ensures forall k :: 0 <= k < dst.Length ==>
              dst[k] == if at <= k < at + |src| then src[k - at] else old(dst[k])
  {
    var i := 0;
    while i < |src|
      invariant 0 <= i <= |src|
      invariant forall k :: 0 <= k < dst.Length ==>
                  dst[k] == if at <= k < at + i then src[k - at] else old(dst[k])
    {
      dst[at + i] := src[i];
      i := i + 1;
    }
  }
}
