/** Packets on the wire, byte by byte. */
module PacketWire {
  import opened Bytes
  import opened Packet
  import opened PacketBranches
  import opened PacketChecksum
  import opened ProtocolHandler
  import opened SendBookkeeping
  import Crc
  import PacketFields

  /** A 32-bit value in network order. */
  function Big4(v: bv32): (b: seq<byte>)
    ensures |b| == 4
  {
    [((v >> 24) & 0xFF) as byte, ((v >> 16) & 0xFF) as byte, ((v >> 8) & 0xFF) as byte, (v & 0xFF) as byte]
  }

  lemma StoredSwapped(v: bv32)
    ensures Stored32(Bswap32(v)) == Big4(v)
  {
  }

  lemma StoredReversed(v: bv32)
    ensures [Stored32(v)[3], Stored32(v)[2], Stored32(v)[1], Stored32(v)[0]] == Big4(v)
  {
  }

  lemma LoadedIs(b: seq<byte>, v: bv32)
    requires |b| == 4
    ensures Bswap32(Crc.Word(b)) == v <==> b == Big4(v)
    ensures Crc.Word(b) == Bswap32(v) <==> b == Big4(v)
  {
    hide Bswap32;
    hide Crc.Word;
    hide Stored32;
    hide Big4;
    StoredOfWord(b);
    StoredSwapped(v);
    WordOfStored(Bswap32(v));
    Bswap32Twice(v);
    Bswap32Twice(Crc.Word(b));
  }

  lemma MagicBytes()
    ensures Big4(MAGIC) == [0x4C, 0x49, 0x43, 0x48]
  {
  }

  /** What a receiver accepts: at least 28 bytes; if bit 0 of the flags' last byte is set, the checksum of
      all from the opcode on in network order; and the magic value. */
  lemma ValidityIs(p: seq<byte>)
    ensures Validity(p) ==
            if |p| < 28 then PacketTooSmall
            else if p[15] & 1 != 0 && p[8..12] != Big4(Crc.Checksum(p[12..], 0)) then InvalidChecksum
            else if p[0..4] != [0x4C, 0x49, 0x43, 0x48] then InvalidMagic
            else NoError
  {
    hide Bswap32;
    hide Crc.Word;
    hide Crc.Checksum;
    hide Big4;
    if |p| >= 28 {
      FlagBit(p[14], p[15]);
      LoadedIs(p[8..12], Crc.Checksum(p[12..], 0));
      LoadedIs(p[0..4], MAGIC);
      MagicBytes();
    }
  }

  // ---- the framebuffer datagram ----

  lemma MirroredBytes(p: seq<byte>, q: seq<byte>, at: nat, b: seq<byte>)
    requires at + 4 <= |p| == |q| && Mirrored4(p, q, at) && p[at..at + 4] == b
    ensures q[at..at + 4] == [b[3], b[2], b[1], b[0]]
  {
    assert b[0] == p[at] && b[1] == p[at + 1] && b[2] == p[at + 2] && b[3] == p[at + 3];
  }

  lemma HostHeader(txn: Txn, channel: bv32, pixels: seq<byte>, numPixels: nat, isRGBW: bool)
    ensures var p := FramebufferPacket(txn, channel, pixels, numPixels, isRGBW);
            && p[0..4] == [0x48, 0x43, 0x49, 0x4C] && p[4..8] == [0, 0, 1, 0]
            && p[12..14] == [4, 0] && p[14..16] == [1, 0] && p[16..18] == p[18..20] == [0, 0]
            && p[20..24] == Stored32(txn)
  {
    hide FramebufferPacket;
    hide Stored32;
    hide Stored16;
    hide Load16;
    hide Populated;
    var p := FramebufferPacket(txn, channel, pixels, numPixels, isRGBW);
    var zeros: seq<byte> := seq(HEADER_SIZE, _ => 0);
    var header := Populated(zeros, FRAMEBUFFER_OPCODE, txn);
    FramebufferFields(txn, channel, pixels, numPixels, isRGBW);
    PopulatedParts(zeros, FRAMEBUFFER_OPCODE, txn);
    FrontPart(p, header, 0, 4);
    FrontPart(p, header, 4, 8);
    FrontPart(p, header, 12, 14);
    FrontPart(p, header, 14, 16);
    FrontPart(p, header, 16, 18);
    FrontPart(p, header, 18, 20);
    FrontPart(p, header, 20, 24);
    HeaderBytes(zeros);
  }

  lemma HeaderBytes(zeros: seq<byte>)
    requires |zeros| == HEADER_SIZE && zeros[14] == 0 && zeros[15] == 0
    ensures Stored32(MAGIC) == [0x48, 0x43, 0x49, 0x4C] && Stored32(VERSION_10) == [0, 0, 1, 0]
    ensures Stored16(FRAMEBUFFER_OPCODE) == [4, 0] && Stored16(0) == [0, 0]
    ensures Stored16(Load16(zeros, 14) | FLAG_CHECKSUMMED) == [1, 0]
  {
  }

  /** Checksumming fills in the checksum of what follows it, in network order, and nothing else. */
  lemma SummedIs(q: seq<byte>, w: seq<byte>)
    requires |q| >= 28 && w == Summed(q)
    ensures w[8..12] == Big4(Crc.Checksum(w[12..], 0))
    ensures w[..8] == q[..8] && w[12..] == q[12..]
  {
    hide Stored32;
    hide Bswap32;
    hide Crc.Checksum;
    hide Big4;
    var crc := Crc.Checksum(q[12..], 0);
    StoredSwapped(crc);
    PutReads(q, 8, Stored32(Bswap32(crc)), 8, 12);
    PutReads(q, 8, Stored32(Bswap32(crc)), 12, |q|);
    PutReads(q, 8, Stored32(Bswap32(crc)), 0, 8);
    assert w[12..] == w[12..|q|] && q[12..] == q[12..|q|];
    assert w[..8] == w[0..8] && q[..8] == q[0..8];
  }

  lemma MirroredFront(p: seq<byte>, q: seq<byte>, txn: Txn)
    requires |p| == |q| >= 40 && MirroredHeader(p, q)
    requires p[0..4] == [0x48, 0x43, 0x49, 0x4C] && p[4..8] == [0, 0, 1, 0]
    requires p[12..14] == [4, 0] && p[14..16] == [1, 0] && p[16..18] == p[18..20] == [0, 0]
    requires p[20..24] == Stored32(txn)
    ensures q[0..4] == [0x4C, 0x49, 0x43, 0x48] && q[4..8] == [0, 1, 0, 0]
    ensures q[12..14] == [0, 4] && q[14..16] == [0, 1] && q[16..18] == q[18..20] == [0, 0]
    ensures q[20..24] == Big4(txn)
  {
    hide Stored32;
    hide Big4;
    MirroredBytes(p, q, 0, [0x48, 0x43, 0x49, 0x4C]);
    MirroredBytes(p, q, 4, [0, 0, 1, 0]);
    MirroredBytes(p, q, 20, Stored32(txn));
    StoredReversed(txn);
    MirroredTwo(p, q, 12);
    MirroredTwo(p, q, 14);
    MirroredTwo(p, q, 16);
    MirroredTwo(p, q, 18);
  }

  lemma MirroredTwo(p: seq<byte>, q: seq<byte>, at: nat)
    requires at + 2 <= |p| == |q| && Mirrored2(p, q, at)
    ensures q[at..at + 2] == [p[at..at + 2][1], p[at..at + 2][0]]
  {
  }

  lemma MirroredNumber(p: seq<byte>, q: seq<byte>, at: nat, n: nat)
    requires at + 4 <= |p| == |q| && Mirrored4(p, q, at) && p[at..at + 4] == Digits(n)
    ensures PacketFields.BigEndian(q[at..at + 4]) == n % 0x1_0000_0000
  {
    hide Digits;
    hide PacketFields.LittleEndian;
    hide PacketFields.BigEndian;
    StoredCount(n);
    FourBytes(p[at..at + 4]);
    FourBytes(q[at..at + 4]);
  }

  lemma MirroredPayload(p: seq<byte>, q: seq<byte>, channel: bv32, pixels: seq<byte>, numPixels: nat, isRGBW: bool)
    requires |p| == |q| == 40 + |pixels|
    requires Mirrored4(p, q, 24) && Mirrored4(p, q, 28) && Mirrored4(p, q, 32) && Mirrored4(p, q, 36)
    requires p[24..28] == Digits(12 + |pixels|) && p[28..32] == Stored32(channel)
    requires p[32..36] == [if isRGBW then 1 else 0, 0, 0, 0] && p[36..40] == Digits(numPixels)
    ensures PacketFields.BigEndian(q[24..28]) == (12 + |pixels|) % 0x1_0000_0000
    ensures q[28..32] == Big4(channel)
    ensures q[32..36] == [0, 0, 0, if isRGBW then 1 else 0]
    ensures PacketFields.BigEndian(q[36..40]) == numPixels % 0x1_0000_0000
  {
    hide Stored32;
    hide Big4;
    hide Digits;
    hide PacketFields.BigEndian;
    hide Mirrored4;
    MirroredNumber(p, q, 24, 12 + |pixels|);
    MirroredBytes(p, q, 28, Stored32(channel));
    StoredReversed(channel);
    MirroredBytes(p, q, 32, [if isRGBW then 1 else 0, 0, 0, 0]);
    MirroredNumber(p, q, 36, numPixels);
  }

  /** The same before checksumming. */
  lemma ConvertedIs(txn: Txn, channel: bv32, pixels: seq<byte>, numPixels: nat, isRGBW: bool)
    requires (12 + |pixels|) % 0x1_0000_0000 != 0
    ensures var p := FramebufferPacket(txn, channel, pixels, numPixels, isRGBW);
            && Holds(p, false, |p|)
            && var q := Converted(p, false, |p|);
            && q[0..4] == [0x4C, 0x49, 0x43, 0x48] && q[4..8] == [0, 1, 0, 0]
            && q[12..14] == [0, 4] && q[14..16] == [0, 1] && q[16..18] == q[18..20] == [0, 0]
            && q[20..24] == Big4(txn)
            && PacketFields.BigEndian(q[24..28]) == (12 + |pixels|) % 0x1_0000_0000
            && q[28..32] == Big4(channel)
            && q[32..36] == [0, 0, 0, if isRGBW then 1 else 0]
            && PacketFields.BigEndian(q[36..40]) == numPixels % 0x1_0000_0000
            && q[40..] == pixels
  {
    hide FramebufferPacket;
    hide Stored32;
    hide Big4;
    hide Converted;
    hide Holds;
    hide Prepared;
    hide Converts;
    hide ReturnCode;
    hide Opcode;
    hide OpcodeNumber;
    hide Digits;
    hide Low32;
    hide Mirrored2;
    hide Mirrored4;
    hide PacketFields.LittleEndian;
    hide PacketFields.BigEndian;
    var p := FramebufferPacket(txn, channel, pixels, numPixels, isRGBW);
    FramebufferIsPrepared(txn, channel, pixels, numPixels, isRGBW);
    PayloadIsConverted(txn, channel, pixels, numPixels, isRGBW);
    ConvertsExactly(p, false, |p|);
    OpcodeIs(p, false);
    FramebufferData(p, false, |p|);
    FramebufferFields(txn, channel, pixels, numPixels, isRGBW);
    HostHeader(txn, channel, pixels, numPixels, isRGBW);
    StoredCount(12 + |pixels|);
    StoredCount(numPixels);
    FormatBytes();
    var q := Converted(p, false, |p|);
    MirroredFront(p, q, txn);
    MirroredPayload(p, q, channel, pixels, numPixels, isRGBW);
  }

  /** Everything the server puts on the wire for a channel. */
  lemma DatagramIs(txn: Txn, channel: bv32, pixels: seq<byte>, numPixels: nat, isRGBW: bool)
    requires (12 + |pixels|) % 0x1_0000_0000 != 0
    ensures var w := FramebufferDatagram(txn, channel, pixels, numPixels, isRGBW);
            && w[0..4] == [0x4C, 0x49, 0x43, 0x48] && w[4..8] == [0, 1, 0, 0]
            && w[8..12] == Big4(Crc.Checksum(w[12..], 0))
            && w[12..14] == [0, 4] && w[14..16] == [0, 1] && w[16..18] == w[18..20] == [0, 0]
            && w[20..24] == Big4(txn)
            && PacketFields.BigEndian(w[24..28]) == (12 + |pixels|) % 0x1_0000_0000
            && w[28..32] == Big4(channel)
            && w[32..36] == [0, 0, 0, if isRGBW then 1 else 0]
            && PacketFields.BigEndian(w[36..40]) == numPixels % 0x1_0000_0000
            && w[40..] == pixels
  {
    hide FramebufferPacket;
    hide Summed;
    hide Big4;
    hide Converted;
    hide Holds;
    hide Crc.Checksum;
    hide PacketFields.BigEndian;
    var p := FramebufferPacket(txn, channel, pixels, numPixels, isRGBW);
    var w := FramebufferDatagram(txn, channel, pixels, numPixels, isRGBW);
    ConvertedIs(txn, channel, pixels, numPixels, isRGBW);
    var q := Converted(p, false, |p|);
    SummedIs(q, w);
    assert w[0..4] == w[..8][0..4] && q[0..4] == q[..8][0..4];
    assert w[4..8] == w[..8][4..8] && q[4..8] == q[..8][4..8];
    Behind(w, q, 12, 14);
    Behind(w, q, 14, 16);
    Behind(w, q, 16, 18);
    Behind(w, q, 18, 20);
    Behind(w, q, 20, 24);
    Behind(w, q, 24, 28);
    Behind(w, q, 28, 32);
    Behind(w, q, 32, 36);
    Behind(w, q, 36, 40);
    Behind(w, q, 40, |w|);
    assert w[40..] == w[40..|w|] && q[40..] == q[40..|w|];
  }

  lemma Behind(w: seq<byte>, q: seq<byte>, lo: nat, hi: nat)
    requires 12 <= lo <= hi <= |w| == |q| && w[12..] == q[12..]
    ensures w[lo..hi] == q[lo..hi]
  {
    forall k | 0 <= k < hi - lo
      ensures w[lo..hi][k] == q[lo..hi][k]
    {
      assert w[lo + k] == w[12..][lo + k - 12] == q[12..][lo + k - 12] == q[lo + k];
    }
  }
}
