/** The handler that sends pixel data to the nodes and settles what they acknowledge. */
module ProtocolHandler {
  import opened Bytes
  import opened Packet
  import opened PacketChecksum
  import opened SendBookkeeping
  import Crc
  import Crc32
  import PacketBranches
  import PacketFields

  const DATA_FORMAT_RGB: bv32 := 0
  const DATA_FORMAT_RGBW: bv32 := 1
  const FRAMEBUFFER_OPCODE: bv16 := 4

  /** The four lowest digits of a number to the base 256, lowest first. */
  function Digits(n: nat): (b: seq<byte>)
    ensures |b| == 4
  {
    [(n % 0x100) as byte, (n / 0x100 % 0x100) as byte, (n / 0x1_0000 % 0x100) as byte, (n / 0x100_0000 % 0x100) as byte]
  }

  /** A count cut down to a 32-bit field. */
  function Low32(n: nat): bv32 {
    Crc.Word(Digits(n))
  }

  lemma DigitIs(d: nat)
    requires d < 0x100
    ensures d as byte as nat == d
  {
    var b := SomeByte(d);
    OneByte(d, b);
  }

  lemma {:induction false} SomeByte(d: nat) returns (b: byte)
    requires d < 0x100
    ensures b as nat == d
  {
    if d == 0 {
      b := 0;
    } else {
      b := SomeByte(d - 1);
      NextByte(b);
      b := b + 1;
    }
  }

  lemma NextByte(b: byte)
    ensures b as nat < 0xFF ==> (b + 1) as nat == b as nat + 1
  {
  }

  lemma OneByte(d: nat, b: byte)
    requires d < 0x100 && b as nat == d
    ensures d as byte == b
  {
  }

  lemma DigitsSum(n: nat)
    ensures n % 0x100 + 0x100 * (n / 0x100 % 0x100) + 0x1_0000 * (n / 0x1_0000 % 0x100)
            + 0x100_0000 * (n / 0x100_0000 % 0x100)
         == n % 0x1_0000_0000
  {
    var n1 := n / 0x100;
    var n2 := n1 / 0x100;
    var n3 := n2 / 0x100;
    Quotients(n, n1, n2, n3);
    var rest := n3 / 0x100;
    assert n == n % 0x100 + 0x100 * (n1 % 0x100 + 0x100 * (n2 % 0x100 + 0x100 * (n3 % 0x100 + 0x100 * rest)));
    Remainder(n, n % 0x100 + 0x100 * (n1 % 0x100) + 0x1_0000 * (n2 % 0x100) + 0x100_0000 * (n3 % 0x100), rest);
  }

  lemma Quotients(n: nat, n1: nat, n2: nat, n3: nat)
    requires n1 == n / 0x100 && n2 == n1 / 0x100 && n3 == n2 / 0x100
    ensures n / 0x1_0000 == n2 && n / 0x100_0000 == n3
  {
  }

  lemma Remainder(n: nat, low: nat, rest: nat)
    requires n == low + 0x1_0000_0000 * rest && low < 0x1_0000_0000
    ensures n % 0x1_0000_0000 == low
  {
  }

  /** The field's four bytes are the count, modulo 2 to the 32. */
  lemma StoredCount(n: nat)
    ensures Stored32(Low32(n)) == Digits(n)
    ensures PacketFields.LittleEndian(Digits(n)) == n % 0x1_0000_0000
  {
    hide Crc.Word;
    hide Stored32;
    hide PacketFields.LittleEndian;
    StoredOfWord(Digits(n));
    PacketBranches.FourBytes(Digits(n));
    DigitIs(n % 0x100);
    DigitIs(n / 0x100 % 0x100);
    DigitIs(n / 0x1_0000 % 0x100);
    DigitIs(n / 0x100_0000 % 0x100);
    DigitsSum(n);
  }

  function Stride(isRGBW: bool): nat {
    if isRGBW then 4 else 3
  }

  // ---- the framebuffer packet ----

  /** The packet in host order, before conversion and checksum. */
  function FramebufferPacket(txn: Txn, channel: bv32, pixels: seq<byte>, numPixels: nat, isRGBW: bool): (p: seq<byte>)
    ensures |p| == 40 + |pixels|
  {
    Populated(seq(HEADER_SIZE, _ => 0), FRAMEBUFFER_OPCODE, txn)[..24]
    + Stored32(Low32(12 + |pixels|))
    + Stored32(channel)
    + Stored32(if isRGBW then DATA_FORMAT_RGBW else DATA_FORMAT_RGB)
    + Stored32(Low32(numPixels))
    + pixels
  }

  /** Where each part of the packet ends up. */
  lemma FramebufferFields(txn: Txn, channel: bv32, pixels: seq<byte>, numPixels: nat, isRGBW: bool)
    ensures var p := FramebufferPacket(txn, channel, pixels, numPixels, isRGBW);
            && p[..24] == Populated(seq(HEADER_SIZE, _ => 0), FRAMEBUFFER_OPCODE, txn)[..24]
            && p[24..28] == Stored32(Low32(12 + |pixels|))
            && p[28..32] == Stored32(channel)
            && p[32..36] == Stored32(if isRGBW then DATA_FORMAT_RGBW else DATA_FORMAT_RGB)
            && p[36..40] == Stored32(Low32(numPixels))
            && p[40..] == pixels
  {
    hide Stored32;
    hide Populated;
    hide Low32;
  }

  lemma FramebufferHeader(txn: Txn, channel: bv32, pixels: seq<byte>, numPixels: nat, isRGBW: bool)
    ensures var p := FramebufferPacket(txn, channel, pixels, numPixels, isRGBW);
            && Prepared(p)
            && p[12..14] == Stored16(FRAMEBUFFER_OPCODE) && p[20..24] == Stored32(txn)
  {
    hide FramebufferPacket;
    hide Stored32;
    hide Stored16;
    hide Load16;
    hide Prepared;
    hide Populated;
    var p := FramebufferPacket(txn, channel, pixels, numPixels, isRGBW);
    var zeros: seq<byte> := seq(HEADER_SIZE, _ => 0);
    var header := Populated(zeros, FRAMEBUFFER_OPCODE, txn);
    FramebufferFields(txn, channel, pixels, numPixels, isRGBW);
    PopulatedParts(zeros, FRAMEBUFFER_OPCODE, txn);
    FrontPart(p, header, 0, 4);
    FrontPart(p, header, 12, 14);
    FrontPart(p, header, 14, 16);
    FrontPart(p, header, 20, 24);
    PreparedBytes(p, Load16(zeros, 14));
  }

  lemma FrontPart(p: seq<byte>, q: seq<byte>, lo: nat, hi: nat)
    requires lo <= hi <= 24 <= |p| && 24 <= |q| && p[..24] == q[..24]
    ensures p[lo..hi] == q[lo..hi]
  {
    forall k | 0 <= k < hi - lo
      ensures p[lo..hi][k] == q[lo..hi][k]
    {
      assert p[lo + k] == p[..24][lo + k] == q[..24][lo + k] == q[lo + k];
    }
  }

  lemma FramebufferOpcodeValue(b: seq<byte>)
    requires b == Stored16(FRAMEBUFFER_OPCODE)
    ensures PacketFields.LittleEndian(b) == OP_FRAMEBUFFER_DATA
  {
    TwoBytes(b);
    assert b[0] == 4 && b[1] == 0;
  }

  /** The payload's fields go out in network order exactly when its length does not wrap around to
      zero in its 32-bit field. */
  lemma PayloadIsConverted(txn: Txn, channel: bv32, pixels: seq<byte>, numPixels: nat, isRGBW: bool)
    ensures var p := FramebufferPacket(txn, channel, pixels, numPixels, isRGBW);
            Converts(p, false, |p|) <==> (12 + |pixels|) % 0x1_0000_0000 != 0
  {
    var p := FramebufferPacket(txn, channel, pixels, numPixels, isRGBW);
    FramebufferFields(txn, channel, pixels, numPixels, isRGBW);
    FramebufferIsPrepared(txn, channel, pixels, numPixels, isRGBW);
    hide FramebufferPacket;
    hide Opcode;
    hide Prepared;
    hide Stored32;
    hide Low32;
    hide Digits;
    hide PacketFields.LittleEndian;
    StoredCount(12 + |pixels|);
  }

  /** Whatever is sent is prepared, takes the framebuffer branch and converts without error. */
  lemma FramebufferIsPrepared(txn: Txn, channel: bv32, pixels: seq<byte>, numPixels: nat, isRGBW: bool)
    ensures var p := FramebufferPacket(txn, channel, pixels, numPixels, isRGBW);
            && Prepared(p) && Opcode(p, false) == OP_FRAMEBUFFER_DATA
            && Holds(p, false, |p|) && ReturnCode(p, false, |p|) == 0
  {
    var p := FramebufferPacket(txn, channel, pixels, numPixels, isRGBW);
    FramebufferHeader(txn, channel, pixels, numPixels, isRGBW);
    hide FramebufferPacket;
    hide Prepared;
    hide Stored32;
    hide Stored16;
    hide PacketFields.LittleEndian;
    FramebufferOpcodeValue(p[12..14]);
  }

  /** The bytes that go out for a channel. */
  function FramebufferDatagram(txn: Txn, channel: bv32, pixels: seq<byte>, numPixels: nat, isRGBW: bool): (w: seq<byte>)
    ensures |w| == 40 + |pixels|
  {
    FramebufferIsPrepared(txn, channel, pixels, numPixels, isRGBW);
    OnWire(FramebufferPacket(txn, channel, pixels, numPixels, isRGBW))
  }

  /** What a node makes of the datagram: it is valid, and after the node's own conversion every field
      and every pixel byte is the one the server was given. */
  lemma PixelsArrive(txn: Txn, channel: bv32, pixels: seq<byte>, numPixels: nat, isRGBW: bool)
    ensures var w := FramebufferDatagram(txn, channel, pixels, numPixels, isRGBW);
            && Validity(w) == NoError && Flagged(w)
            && Holds(w, true, |w|) && ReturnCode(w, true, |w|) == 0
            && var r := Converted(w, true, |w|);
            && Load32(r, 20) == txn
            && Load32(r, 28) == channel
            && Load32(r, 32) == (if isRGBW then DATA_FORMAT_RGBW else DATA_FORMAT_RGB)
            && PacketFields.LittleEndian(r[24..28]) == (12 + |pixels|) % 0x1_0000_0000
            && r[32..36] == [if isRGBW then 1 else 0, 0, 0, 0]
            && PacketFields.LittleEndian(r[36..40]) == numPixels % 0x1_0000_0000
            && r[40..] == pixels
  {
    var p := FramebufferPacket(txn, channel, pixels, numPixels, isRGBW);
    FramebufferIsPrepared(txn, channel, pixels, numPixels, isRGBW);
    hide FramebufferPacket;
    hide Prepared;
    hide Validity;
    hide Flagged;
    hide Holds;
    hide ReturnCode;
    hide Load32;
    PreparedValidates(p);
    Delivered(p);
    hide OnWire;
    hide Converted;
    ReceivedFields(Converted(OnWire(p), true, |p|), txn, channel, pixels, numPixels, isRGBW);
  }

  lemma ReceivedFields(r: seq<byte>, txn: Txn, channel: bv32, pixels: seq<byte>, numPixels: nat, isRGBW: bool)
    requires var p := FramebufferPacket(txn, channel, pixels, numPixels, isRGBW);
             |r| == |p| && forall k :: 0 <= k < |p| && !(8 <= k < 12) ==> r[k] == p[k]
    ensures Load32(r, 20) == txn && Load32(r, 28) == channel
    ensures Load32(r, 32) == if isRGBW then DATA_FORMAT_RGBW else DATA_FORMAT_RGB
    ensures PacketFields.LittleEndian(r[24..28]) == (12 + |pixels|) % 0x1_0000_0000
    ensures r[32..36] == [if isRGBW then 1 else 0, 0, 0, 0]
    ensures PacketFields.LittleEndian(r[36..40]) == numPixels % 0x1_0000_0000 && r[40..] == pixels
  {
    var p := FramebufferPacket(txn, channel, pixels, numPixels, isRGBW);
    var format := if isRGBW then DATA_FORMAT_RGBW else DATA_FORMAT_RGB;
    FramebufferFields(txn, channel, pixels, numPixels, isRGBW);
    FramebufferHeader(txn, channel, pixels, numPixels, isRGBW);
    hide FramebufferPacket;
    hide Stored32;
    hide Stored16;
    hide Low32;
    WordOfStored(txn);
    WordOfStored(channel);
    WordOfStored(format);
    StoredCount(12 + |pixels|);
    StoredCount(numPixels);
    FormatBytes();
    hide Digits;
    hide PacketFields.LittleEndian;
    hide Crc.Word;
    SameRange(r, p, 24, 28);
    SameRange(r, p, 20, 24);
    SameRange(r, p, 28, 32);
    SameRange(r, p, 32, 36);
    SameRange(r, p, 36, 40);
    SameRange(r, p, 40, |p|);
    assert r[40..] == r[40..|p|] && p[40..] == p[40..|p|];
  }

  lemma FormatBytes()
    ensures Stored32(DATA_FORMAT_RGB) == [0, 0, 0, 0] && Stored32(DATA_FORMAT_RGBW) == [1, 0, 0, 0]
  {
  }

  lemma SameRange(r: seq<byte>, p: seq<byte>, lo: nat, hi: nat)
    requires |r| == |p| && 12 <= lo <= hi <= |p|
    requires forall k :: 0 <= k < |p| && !(8 <= k < 12) ==> r[k] == p[k]
    ensures r[lo..hi] == p[lo..hi]
  {
  }

  // ---- the handler ----

  /** A node, as far as the back-off is concerned. */
  class DbNode {
    var errorTimer: nat
    var errorPackets: nat

    constructor ()
      ensures Backoff() == FRESH_NODE
    {
      errorTimer, errorPackets := 0, 0;
    }

    function Backoff(): SendBookkeeping.Backoff
      reads this
    {
      SendBookkeeping.Backoff(errorTimer, errorPackets)
    }
  }

  /** What a call hands to the socket. */
  datatype Outgoing = Nothing | Datagram(bytes: seq<byte>)

  class ProtocolHandler {
    var pendingFBDataWrites: seq<Write>
    var numPendingFBWrites: int
    var timers: map<TimerId, Txn>
    ghost var sent: nat
    ghost var acked: nat
    ghost var timedOut: nat

    constructor ()
      ensures Writes() == NO_WRITES
    {
      pendingFBDataWrites, numPendingFBWrites, timers := [], 0, map[];
      sent, acked, timedOut := 0, 0, 0;
    }

    ghost function Writes(): SendBookkeeping.Writes
      reads this
    {
      SendBookkeeping.Writes(pendingFBDataWrites, numPendingFBWrites, timers, sent, acked, timedOut)
    }

    /** The acknowledgement branch: cancel the timer of the first write with the txn and forget both. */
    method HandleFramebufferAck(txn: Txn)
      modifies this
      ensures Writes() == AfterEvent(old(Writes()), Acked(txn))
    {
      for i := 0 to |pendingFBDataWrites|
        invariant Writes() == old(Writes())
        invariant forall j :: 0 <= j < i ==> pendingFBDataWrites[j].txn != txn
      {
        if pendingFBDataWrites[i].txn == txn {
          timers := timers - {pendingFBDataWrites[i].timer};
          pendingFBDataWrites := pendingFBDataWrites[..i] + pendingFBDataWrites[i + 1..];
          numPendingFBWrites := numPendingFBWrites - 1;
          acked := acked + 1;
          return;
        }
      }
    }

    /** A timer fires: it is spent, and its handler looks for the txn it was started for. */
    method TimerExpired(id: TimerId)
      requires id in timers
      modifies this
      ensures Writes() == AfterEvent(old(Writes()), TimerFired(id))
    {
      var txn := timers[id];
      timers := timers - {id};
      FbSendTimeoutExpired(txn);
    }

    method FbSendTimeoutExpired(txn: Txn)
      modifies this
      ensures var was := old(Writes());
              var i := FirstWith(was.pending, txn);
              Writes() == if i == |was.pending| then was
                          else was.(pending := Without(was.pending, i), counter := was.counter - 1,
                                  timedOut := was.timedOut + 1)
    {
      for i := 0 to |pendingFBDataWrites|
        invariant Writes() == old(Writes())
        invariant forall j :: 0 <= j < i ==> pendingFBDataWrites[j].txn != txn
      {
        if pendingFBDataWrites[i].txn == txn {
          pendingFBDataWrites := pendingFBDataWrites[..i] + pendingFBDataWrites[i + 1..];
          numPendingFBWrites := numPendingFBWrites - 1;
          timedOut := timedOut + 1;
          return;
        }
      }
    }

    /** Sends one channel's pixels. The random txn, the id of the timer that a successful send starts
        and whether the socket takes the datagram come from outside. */
    method SendDataToNode(lookup: array2<bv32>, node: DbNode, channel: bv32, pixelData: array<byte>, numPixels: nat,
            isRGBW: bool,
                          txn: Txn, id: TimerId, delivered: bool)
      returns (out: Outgoing)
      requires Crc32.IsTable(lookup) && Stride(isRGBW) * numPixels <= pixelData.Length && id !in timers
      modifies this, node
      ensures node.Backoff() == AfterCall(old(node.Backoff()), delivered)
      ensures out == if Attempts(old(node.Backoff()))
                     then Datagram(FramebufferDatagram(txn, channel, old(pixelData[..Stride(isRGBW) * numPixels]),
                             numPixels, isRGBW))
                     else Nothing
      ensures out.Datagram? ==> |out.bytes| == 40 + (if isRGBW then 4 else 3) * numPixels
      ensures Writes() == if out.Datagram? && delivered then AfterEvent(old(Writes()), Sent(txn, id)) else old(Writes())
    {
      hide FramebufferDatagram;
      if node.errorTimer != 0 {
        node.errorTimer := node.errorTimer - 1;
        return Nothing;
      }
      var bytes := BuildFramebufferPacket(lookup, channel, pixelData, numPixels, isRGBW, txn);
      out := Datagram(bytes[..]);
      if !delivered {
        if node.errorPackets >= MAX_PACKETS_WITH_ERRORS {
          node.errorTimer := NUM_PACKETS_TO_WAIT;
        }
        node.errorPackets := node.errorPackets + 1;
      } else {
        node.errorPackets := 0;
        node.errorTimer := 0;
        timers := timers[id := txn];
        pendingFBDataWrites := pendingFBDataWrites + [Write(txn, id)];
        numPendingFBWrites := numPendingFBWrites + 1;
        sent := sent + 1;
      }
    }

    /** The buffer part of sending: fill in, convert, checksum. Neither check of the source can fail. */
    static method BuildFramebufferPacket(lookup: array2<bv32>, channel: bv32, pixelData: array<byte>, numPixels: nat,
            isRGBW: bool, txn: Txn)
      returns (data: array<byte>)
      requires Crc32.IsTable(lookup) && Stride(isRGBW) * numPixels <= pixelData.Length
      ensures fresh(data)
      ensures data[..] == FramebufferDatagram(txn, channel, pixelData[..Stride(isRGBW) * numPixels], numPixels, isRGBW)
    {
      var numBytesToCopy := Stride(isRGBW) * numPixels;
      var total := 40 + numBytesToCopy;
      ghost var p := FramebufferPacket(txn, channel, pixelData[..numBytesToCopy], numPixels, isRGBW);
      data := new byte[total](_ => 0);
      FillFramebufferPacket(data, channel, pixelData, numPixels, isRGBW, txn);
      FramebufferIsPrepared(txn, channel, pixelData[..numBytesToCopy], numPixels, isRGBW);
      var err, pErr := ConvertAndSum(lookup, data, p);
      assert err == 0 && pErr == NoError;
    }

    static method ConvertAndSum(lookup: array2<bv32>, data: array<byte>, ghost p: seq<byte>)
      returns (err: int, pErr: PacketError)
      requires Crc32.IsTable(lookup)
      requires data[..] == p && Holds(p, false, |p|)
      modifies data
      ensures data[..] == OnWire(p) && err == ReturnCode(p, false, |p|) && pErr == NoError
    {
      hide Stored32;
      hide Converts;
      err := ConvertPacketByteOrder(data, false, data.Length);
      hide Converted;
      hide ReturnCode;
      assert data[..data.Length] == data[..];
      pErr := ApplyChecksum(lookup, data, data.Length);
      assert data[..data.Length] == data[..];
    }

    static method FillFramebufferPacket(data: array<byte>, channel: bv32, pixelData: array<byte>, numPixels: nat,
            isRGBW: bool, txn: Txn)
      requires Stride(isRGBW) * numPixels <= pixelData.Length && data != pixelData
      requires data.Length == 40 + Stride(isRGBW) * numPixels && forall k :: 0 <= k < data.Length ==> data[k] == 0
      modifies data
      ensures data[..] == FramebufferPacket(txn, channel, pixelData[..Stride(isRGBW) * numPixels], numPixels, isRGBW)
    {
      hide Populated;
      hide FramebufferPacket;
      hide Put;
      hide Stored32;
      hide Low32;
      ghost var zeros: seq<byte> := seq(data.Length, _ => 0);
      assert data[..] == zeros;
      PopulateHeader(data, FRAMEBUFFER_OPCODE, txn);
      Store32(data, 24, Low32(data.Length - HEADER_SIZE));
      Store32(data, 28, channel);
      Store32(data, 32, if isRGBW then DATA_FORMAT_RGBW else DATA_FORMAT_RGB);
      Store32(data, 36, Low32(numPixels));
      CopyTo(data, 40, pixelData, data.Length - 40);
      FilledIn(zeros, txn, channel, pixelData[..Stride(isRGBW) * numPixels], numPixels, isRGBW);
    }

    /** The stores in the order of the source give the layout. */
    static lemma FilledIn(zeros: seq<byte>, txn: Txn, channel: bv32, pixels: seq<byte>, numPixels: nat, isRGBW: bool)
      requires |zeros| == 40 + |pixels| && forall k :: 0 <= k < |zeros| ==> zeros[k] == 0
      ensures var q := Put(Populated(zeros, FRAMEBUFFER_OPCODE, txn), 24, Stored32(Low32(12 + |pixels|)));
              var q' := Put(Put(q, 28, Stored32(channel)), 32,
                      Stored32(if isRGBW then DATA_FORMAT_RGBW else DATA_FORMAT_RGB));
              Put(Put(q', 36, Stored32(Low32(numPixels))), 40, pixels)
              == FramebufferPacket(txn, channel, pixels, numPixels, isRGBW)
    {
      hide Stored32;
      hide Stored16;
      hide Low32;
      hide Put;
      hide FramebufferPacket;
      var header := Populated(zeros, FRAMEBUFFER_OPCODE, txn);
      var q1 := Put(header, 24, Stored32(Low32(12 + |pixels|)));
      var q2 := Put(q1, 28, Stored32(channel));
      var q3 := Put(q2, 32, Stored32(if isRGBW then DATA_FORMAT_RGBW else DATA_FORMAT_RGB));
      var q4 := Put(q3, 36, Stored32(Low32(numPixels)));
      var p := FramebufferPacket(txn, channel, pixels, numPixels, isRGBW);
      FramebufferFields(txn, channel, pixels, numPixels, isRGBW);
      assert header[..24] == p[..24];
      hide Populated;
      forall k | 0 <= k < |p|
        ensures Put(q4, 40, pixels)[k] == p[k]
      {
        PutAt(header, 24, Stored32(Low32(12 + |pixels|)), k);
        PutAt(q1, 28, Stored32(channel), k);
        PutAt(q2, 32, Stored32(if isRGBW then DATA_FORMAT_RGBW else DATA_FORMAT_RGB), k);
        PutAt(q3, 36, Stored32(Low32(numPixels)), k);
        PutAt(q4, 40, pixels, k);
        PartAt(p, k);
      }
    }

    /** A byte of a packet is a byte of the field it lies in. */
    static lemma PartAt(p: seq<byte>, k: nat)
      requires |p| >= 40 && k < |p|
      ensures k < 24 ==> p[..24][k] == p[k]
      ensures 24 <= k < 28 ==> p[24..28][k - 24] == p[k]
      ensures 28 <= k < 32 ==> p[28..32][k - 28] == p[k]
      ensures 32 <= k < 36 ==> p[32..36][k - 32] == p[k]
      ensures 36 <= k < 40 ==> p[36..40][k - 36] == p[k]
      ensures 40 <= k ==> p[40..][k - 40] == p[k]
    {
    }

    static method CopyTo(data: array<byte>, at: nat, source: array<byte>, n: nat)
      requires at + n <= data.Length && n <= source.Length && data != source
      modifies data
      ensures data[..] == Put(old(data[..]), at, source[..n])
    {
      for i := 0 to n
        invariant data[..] == Put(old(data[..]), at, source[..i])
      {
        data[at + i] := source[i];
      }
    }
  }
}
