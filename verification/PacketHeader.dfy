/** The 68-bit packet header of nn_packet.c: type, sequence number, ack and ack bits, packed
    most significant bit first into nine bytes with four bits of padding. */
module PacketHeader {
  import opened Bits
  import opened Wire

  datatype Header = Header(packetType: u8, sequenceNum: u16, ack: u16, ackBitfield: u32)

  datatype ReadResult = Bad | Good(header: Header)

  const HEADER_SIZE: nat := 9
  const PACKET_TYPE_MAX: u8 := 7

  /** The header as one number of 72 bits, the low four of them zero */
  function Packed(h: Header): nat {
    h.packetType * 0x10_0000_0000_0000_0000 as nat + h.sequenceNum * 0x10_0000_0000_0000 as nat
    + h.ack * 0x10_0000_0000 as nat + h.ackBitfield * 0x10 as nat
  }

  /** A byte from its two nibbles */
  function Nibbles(hi: nat, lo: nat): (b: u8)
    requires hi < 16 && lo < 16
    ensures b == hi * 16 + lo
  {
    Pow2Values();
    ShlIsProduct(hi, 4);
    OrDisjoint(4, lo, hi);
    Or(Shl(hi, 4), lo)
  }

  /** The low four bits */
  function LowNibble(b: nat): (n: nat)
    ensures n == b % 16
  {
    Pow2Values();
    AndLowMask(b, 4);
    DivModPow2(b, 4);
    And(b, 0x0F)
  }

  /** The nine bytes that nn_packet_write stores */
  function Encode(h: Header): (s: seq<u8>)
    requires h.packetType <= PACKET_TYPE_MAX
    ensures |s| == HEADER_SIZE
  {
    [ Nibbles(h.packetType, h.sequenceNum / 0x1000),
      h.sequenceNum / 0x10 % 0x100,
      Nibbles(LowNibble(h.sequenceNum), h.ack / 0x1000),
      h.ack / 0x10 % 0x100,
      Nibbles(LowNibble(h.ack), h.ackBitfield / 0x1000_0000),
      h.ackBitfield / 0x10_0000 % 0x100,
      h.ackBitfield / 0x1000 % 0x100,
      h.ackBitfield / 0x10 % 0x100,
      Nibbles(LowNibble(h.ackBitfield), 0) ]
  }

  /** high | low, when high is a multiple of 2^k and low is below it */
  function Over(high: nat, x: nat, k: nat, low: nat): (w: nat)
    requires high == x * Pow2(k) && low < Pow2(k)
    ensures w == high + low
  {
    OrDisjoint(k, low, x);
    Or(high, low)
  }

  /** A 16-bit number from a nibble, a byte and a nibble */
  function Join16(n: nat, b: nat, m: nat): (w: u16)
    requires n < 16 && b < 0x100 && m < 16
    ensures w == n * 0x1000 + b * 0x10 + m
  {
    Pow2Values();
    Over(Over(n * 0x1000, n, 12, b * 0x10), n * 0x100 + b, 4, m)
  }

  /** A 32-bit number from a nibble, three bytes and a nibble */
  function Join32(n: nat, b5: nat, b6: nat, b7: nat, m: nat): (w: u32)
    requires n < 16 && b5 < 0x100 && b6 < 0x100 && b7 < 0x100 && m < 16
    ensures w == n * 0x1000_0000 + b5 * 0x10_0000 + b6 * 0x1000 + b7 * 0x10 + m
  {
    Pow2Values();
    var w5 := Over(n * 0x1000_0000, n, 28, b5 * 0x10_0000);
    var w6 := Over(w5, n * 0x100 + b5, 20, b6 * 0x1000);
    var w7 := Over(w6, n * 0x1_0000 + b5 * 0x100 + b6, 12, b7 * 0x10);
    Over(w7, n * 0x100_0000 + b5 * 0x1_0000 + b6 * 0x100 + b7, 4, m)
  }

  /** What nn_packet_read makes of a buffer */
  function Decode(b: seq<u8>): ReadResult {
    if |b| < HEADER_SIZE then Bad
    else if b[0] / 0x10 > PACKET_TYPE_MAX then Bad
    else Good(Header(b[0] / 0x10,
                     Join16(LowNibble(b[0]), b[1], b[2] / 0x10),
                     Join16(LowNibble(b[2]), b[3], b[4] / 0x10),
                     Join32(LowNibble(b[4]), b[5], b[6], b[7], b[8] / 0x10)))
  }

  // ---- Big-endian reading ----

  /** The number whose base-256 digits are the first k bytes of s, most significant first */
  function Be(s: seq<u8>, k: nat): nat
    requires k <= |s|
  {
    if k == 0 then 0 else Be(s, k - 1) * 0x100 + s[k - 1]
  }

  lemma BeOf9(s: seq<u8>)
    requires |s| == 9
    ensures Be(s, 9) == Nine(s[0], s[1], s[2], s[3], s[4], s[5], s[6], s[7], s[8])
  {
    assert Be(s, 1) == s[0];
    assert Be(s, 3) == Be(s, 2) * 0x100 + s[2];
    assert Be(s, 5) == Be(s, 4) * 0x100 + s[4];
    assert Be(s, 7) == Be(s, 6) * 0x100 + s[6];
  }

  function Nine(b0: nat, b1: nat, b2: nat, b3: nat, b4: nat, b5: nat, b6: nat, b7: nat, b8: nat): nat {
    (((((((b0 * 0x100 + b1) * 0x100 + b2) * 0x100 + b3) * 0x100 + b4) * 0x100 + b5) * 0x100
      + b6) * 0x100 + b7) * 0x100 + b8
  }

  /** The nine bytes are the 68 header bits, most significant first, and four zero bits. */
  lemma EncodeIsPacked(h: Header)
    requires h.packetType <= PACKET_TYPE_MAX
    ensures Be(Encode(h), HEADER_SIZE) == Packed(h)
  {
    BeOf9(Encode(h));
    SplitField16(h.sequenceNum);
    SplitField16(h.ack);
    SplitField32(h.ackBitfield);
  }

  lemma SplitField16(w: u16)
    ensures w == w / 0x1000 * 0x1000 as nat + w / 0x10 % 0x100 * 0x10 as nat + w % 0x10
  {
  }

  lemma SplitField32(w: u32)
    ensures w == w / 0x1000_0000 * 0x1000_0000 as nat + w / 0x10_0000 % 0x100 * 0x10_0000 as nat
              + w / 0x1000 % 0x100 * 0x1000 as nat + w / 0x10 % 0x100 * 0x10 as nat + w % 0x10
  {
    var x1: nat := w / 0x10;
    var x2, x3 := x1 / 0x100, x1 / 0x100 / 0x100;
    RemainderIs(w, 0x1000, x2, x1 % 0x100 * 0x10 + w % 0x10);
    RemainderIs(w, 0x10_0000, x3, x2 % 0x100 * 0x1000 + x1 % 0x100 * 0x10 + w % 0x10);
    RemainderIs(w, 0x1000_0000, x3 / 0x100,
      x3 % 0x100 * 0x10_0000 + x2 % 0x100 * 0x1000 + x1 % 0x100 * 0x10 + w % 0x10);
  }

  lemma JoinSplit16(w: u16)
    ensures Join16(w / 0x1000, w / 0x10 % 0x100, w % 0x10) == w
  {
    SplitField16(w);
  }

  lemma JoinSplit32(w: u32)
    ensures Join32(w / 0x1000_0000, w / 0x10_0000 % 0x100, w / 0x1000 % 0x100, w / 0x10 % 0x100, w % 0x10) == w
  {
    SplitField32(w);
  }

  lemma SplitJoin16(n: nat, b: nat, m: nat)
    requires n < 16 && b < 0x100 && m < 16
    ensures var w := Join16(n, b, m); w / 0x1000 == n && w / 0x10 % 0x100 == b && w % 0x10 == m
  {
    var w := Join16(n, b, m);
    RemainderIs(w, 0x1000, n, b * 0x10 + m);
    RemainderIs(w, 0x10, n * 0x100 + b, m);
    RemainderIs(n * 0x100 + b, 0x100, n, b);
  }

  lemma SplitJoin32(n: nat, b5: nat, b6: nat, b7: nat, m: nat)
    requires n < 16 && b5 < 0x100 && b6 < 0x100 && b7 < 0x100 && m < 16
    ensures var w := Join32(n, b5, b6, b7, m);
      && w / 0x1000_0000 == n && w / 0x10_0000 % 0x100 == b5 && w / 0x1000 % 0x100 == b6
      && w / 0x10 % 0x100 == b7 && w % 0x10 == m
  {
    var w := Join32(n, b5, b6, b7, m);
    var w5 := n * 0x100 + b5;
    var w6 := w5 * 0x100 + b6;
    var w7 := w6 * 0x100 + b7;
    RemainderIs(w, 0x1000_0000, n, b5 * 0x10_0000 + b6 * 0x1000 + b7 * 0x10 + m);
    RemainderIs(w, 0x10_0000, w5, b6 * 0x1000 + b7 * 0x10 + m);
    RemainderIs(w, 0x1000, w6, b7 * 0x10 + m);
    RemainderIs(w, 0x10, w7, m);
    RemainderIs(w5, 0x100, n, b5);
    RemainderIs(w6, 0x100, w5, b6);
    RemainderIs(w7, 0x100, w6, b7);
  }

  lemma NibbleParts(hi: nat, lo: nat)
    requires hi < 16 && lo < 16
    ensures Nibbles(hi, lo) / 0x10 == hi && LowNibble(Nibbles(hi, lo)) == lo
  {
  }

  /** A header is rejected exactly if it is shorter than nine bytes or its type is above 7. */
  lemma DecodeFailsIff(b: seq<u8>)
    ensures Decode(b).Bad? <==> |b| < 9 || b[0] / 16 > 7
  {
  }


  /** Reading what was written gives the header back, whatever follows it in the packet. */
  lemma DecodeEncode(h: Header, rest: seq<u8>)
    requires h.packetType <= PACKET_TYPE_MAX
    ensures Decode(Encode(h) + rest) == Good(h)
  {
    var b := Encode(h) + rest;
    assert b[..9] == Encode(h);
    NibbleParts(h.packetType, h.sequenceNum / 0x1000);
    NibbleParts(LowNibble(h.sequenceNum), h.ack / 0x1000);
    NibbleParts(LowNibble(h.ack), h.ackBitfield / 0x1000_0000);
    NibbleParts(LowNibble(h.ackBitfield), 0);
    JoinSplit16(h.sequenceNum);
    JoinSplit16(h.ack);
    JoinSplit32(h.ackBitfield);
  }

  /** A header that was read writes back to the bytes it came from, up to the padding bits. */
  lemma EncodeDecode(b: seq<u8>)
    requires Decode(b).Good?
    ensures Decode(b).header.packetType <= PACKET_TYPE_MAX
    ensures Encode(Decode(b).header) == b[..8] + [b[8] - b[8] % 16]
  {
    var h := Decode(b).header;
    SplitJoin16(LowNibble(b[0]), b[1], b[2] / 0x10);
    SplitJoin16(LowNibble(b[2]), b[3], b[4] / 0x10);
    SplitJoin32(LowNibble(b[4]), b[5], b[6], b[7], b[8] / 0x10);
    EncodeFields(h, b);
  }

  lemma EncodeFields(h: Header, b: seq<u8>)
    requires |b| >= 9 && h.packetType <= PACKET_TYPE_MAX && h.packetType == b[0] / 0x10
    requires h.sequenceNum / 0x1000 == b[0] % 16 && h.sequenceNum / 0x10 % 0x100 == b[1]
      && h.sequenceNum % 16 == b[2] / 0x10
    requires h.ack / 0x1000 == b[2] % 16 && h.ack / 0x10 % 0x100 == b[3] && h.ack % 16 == b[4] / 0x10
    requires h.ackBitfield / 0x1000_0000 == b[4] % 16 && h.ackBitfield / 0x10_0000 % 0x100 == b[5]
    requires h.ackBitfield / 0x1000 % 0x100 == b[6] && h.ackBitfield / 0x10 % 0x100 == b[7]
    requires h.ackBitfield % 16 == b[8] / 0x10
    ensures Encode(h) == b[..8] + [b[8] - b[8] % 16]
  {
    TwoNibbles(b[0]);
    TwoNibbles(b[2]);
    TwoNibbles(b[4]);
    TwoNibbles(b[8]);
  }

  lemma TwoNibbles(b: u8)
    ensures Nibbles(b / 16, b % 16) == b && Nibbles(b / 16, 0) == b - b % 16
  {
  }

  /** nn_packet_write */
  method Write(h: Header, buf: array<u8>) returns (n: int)
    requires buf.Length >= HEADER_SIZE
    modifies buf
    ensures h.packetType > PACKET_TYPE_MAX ==> n == -1 && buf[..] == old(buf[..])
    ensures h.packetType <= PACKET_TYPE_MAX ==> n == HEADER_SIZE && buf[..] == Spliced(old(buf[..]), 0, Encode(h))
  {
    if h.packetType > PACKET_TYPE_MAX {
      return -1;
    }
    buf[0] := Nibbles(h.packetType, h.sequenceNum / 0x1000);
    buf[1] := h.sequenceNum / 0x10 % 0x100;
    buf[2] := Nibbles(LowNibble(h.sequenceNum), h.ack / 0x1000);
    buf[3] := h.ack / 0x10 % 0x100;
    buf[4] := Nibbles(LowNibble(h.ack), h.ackBitfield / 0x1000_0000);
    buf[5] := h.ackBitfield / 0x10_0000 % 0x100;
    buf[6] := h.ackBitfield / 0x1000 % 0x100;
    buf[7] := h.ackBitfield / 0x10 % 0x100;
    buf[8] := Nibbles(LowNibble(h.ackBitfield), 0);
    n := HEADER_SIZE;
  }

  /** nn_packet_read */
  method Read(buf: array<u8>, bufLen: nat) returns (r: ReadResult)
    requires bufLen <= buf.Length
    ensures r == Decode(buf[..bufLen])
  {
    if bufLen < HEADER_SIZE {
      return Bad;
    }
    var pt: u8 := buf[0] / 0x10;
    if pt > PACKET_TYPE_MAX {
      return Bad;
    }
    var sn := Join16(LowNibble(buf[0]), buf[1], buf[2] / 0x10);
    var ak := Join16(LowNibble(buf[2]), buf[3], buf[4] / 0x10);
    var abf := Join32(LowNibble(buf[4]), buf[5], buf[6], buf[7], buf[8] / 0x10);
    r := Good(Header(pt, sn, ak, abf));
  }
}
