/** What a conversion does to each kind of packet, by byte offset and number. */
module PacketBranches {
  import opened Bytes
  import opened PacketFields
  import opened Packet

  predicate Mirrored2(p: seq<byte>, q: seq<byte>, at: nat)
    requires at + 2 <= |p| == |q|
  {
    q[at] == p[at + 1] && q[at + 1] == p[at]
  }

  predicate Mirrored4(p: seq<byte>, q: seq<byte>, at: nat)
    requires at + 4 <= |p| == |q|
  {
    q[at] == p[at + 3] && q[at + 1] == p[at + 2] && q[at + 2] == p[at + 1] && q[at + 3] == p[at]
  }

  predicate MirroredHeader(p: seq<byte>, q: seq<byte>)
    requires 28 <= |p| == |q|
  {
    && Mirrored4(p, q, 0) && Mirrored4(p, q, 4) && Mirrored4(p, q, 8)
    && Mirrored2(p, q, 12) && Mirrored2(p, q, 14) && Mirrored2(p, q, 16) && Mirrored2(p, q, 18)
    && Mirrored4(p, q, 20) && Mirrored4(p, q, 24)
  }

  /** The opcode as the converting host knows it. */
  function OpcodeNumber(p: seq<byte>, fromNetwork: bool): nat
    requires |p| >= 28
  {
    if fromNetwork then 256 * p[12] as nat + p[13] as nat else p[12] as nat + 256 * p[13] as nat
  }

  function ChannelNumber(p: seq<byte>, fromNetwork: bool): nat
    requires |p| >= 40
  {
    if fromNetwork
    then 0x100_0000 * p[36] as nat + 0x1_0000 * p[37] as nat + 0x100 * p[38] as nat + p[39] as nat
    else p[36] as nat + 0x100 * p[37] as nat + 0x1_0000 * p[38] as nat + 0x100_0000 * p[39] as nat
  }

  /** Whether the payload of a packet with this opcode and length is converted. */
  predicate LongEnough(opcode: nat, length: nat) {
    || (opcode == 0 && length >= 64)
    || (opcode == 1 && length >= 46)
    || (opcode == 2 && length >= 40)
    || (opcode == 3 && length >= 84)
    || (opcode == 4 && length >= 40)
    || (opcode == 6 && length >= 32)
    || (opcode == 12 && length >= 40)
  }

  // ---- numbers ----

  lemma OpcodeIs(p: seq<byte>, fromNetwork: bool)
    requires |p| >= 28
    ensures Opcode(p, fromNetwork) == OpcodeNumber(p, fromNetwork)
  {
    hide LittleEndian;
    hide BigEndian;
    TwoBytes(p[12..14]);
  }

  lemma FourBytes(b: seq<byte>)
    requires |b| == 4
    ensures LittleEndian(b) == b[0] as nat + 0x100 * b[1] as nat + 0x1_0000 * b[2] as nat + 0x100_0000 * b[3] as nat
    ensures BigEndian(b) == 0x100_0000 * b[0] as nat + 0x1_0000 * b[1] as nat + 0x100 * b[2] as nat + b[3] as nat
  {
    TwoBytes(b[..2]);
    TwoBytes(b[2..]);
    assert LittleEndian(b) == b[0] as nat + 256 * LittleEndian(b[1..]);
    assert b[1..][1..] == b[2..];
    assert LittleEndian(b[1..]) == b[1] as nat + 256 * LittleEndian(b[2..]);
    assert b[..3][..2] == b[..2];
    assert BigEndian(b) == 256 * BigEndian(b[..3]) + b[3] as nat;
    assert BigEndian(b[..3]) == 256 * BigEndian(b[..2]) + b[2] as nat;
  }

  lemma ChannelsAre(p: seq<byte>, fromNetwork: bool)
    requires |p| >= 40
    ensures Channels(p, fromNetwork) == ChannelNumber(p, fromNetwork)
  {
    hide LittleEndian;
    hide BigEndian;
    FourBytes(p[36..40]);
  }

  lemma PayloadIs(p: seq<byte>)
    requires |p| >= 28
    ensures HasPayload(p) <==> p[24..28] != [0, 0, 0, 0]
  {
    hide LittleEndian;
    ZeroValue(p[24..28]);
  }

  lemma ConvertsExactly(p: seq<byte>, fromNetwork: bool, length: nat)
    requires |p| >= 28
    ensures Converts(p, fromNetwork, length) <==>
            p[24..28] != [0, 0, 0, 0] && LongEnough(OpcodeNumber(p, fromNetwork), length)
  {
    hide HostValue;
    hide LittleEndian;
    PayloadIs(p);
    OpcodeIs(p, fromNetwork);
  }

  /** The return code, for every opcode and length. */
  lemma ReturnCodeIs(p: seq<byte>, fromNetwork: bool, length: nat)
    requires Holds(p, fromNetwork, length)
    ensures ReturnCode(p, fromNetwork, length) ==
            if p[24..28] == [0, 0, 0, 0] || LongEnough(OpcodeNumber(p, fromNetwork), length) then 0 else -1
  {
    ConvertsExactly(p, fromNetwork, length);
    PayloadIs(p);
  }

  /** What a caller has to see to: room for the header, the length and the adopted channels. */
  lemma HoldsExactly(p: seq<byte>, fromNetwork: bool, length: nat)
    ensures Holds(p, fromNetwork, length) <==>
            && 28 <= |p| && length <= |p|
            && (p[24..28] != [0, 0, 0, 0] && OpcodeNumber(p, fromNetwork) == 2 && length >= 40
                ==> 40 + 4 * ChannelNumber(p, fromNetwork) <= |p|)
  {
    hide Converts;
    hide HostValue;
    hide OpcodeNumber;
    hide ChannelNumber;
    if 28 <= |p| && length <= |p| {
      ConvertsExactly(p, fromNetwork, length);
      OpcodeIs(p, fromNetwork);
      if length >= 40 {
        ChannelsAre(p, fromNetwork);
      }
    }
  }

  // ---- swapping by field ----

  lemma Mirror2(p: seq<byte>, fields: seq<Field>, i: nat)
    requires Laid(fields, |p|) && i < |fields| && fields[i].width == 2
    ensures fields[i].offset + 2 <= |p| && Mirrored2(p, SwapAll(p, fields), fields[i].offset)
  {
    hide SwapAll;
    var at := fields[i].offset;
    SwapAllInside(p, fields, i, at);
    SwapAllInside(p, fields, i, at + 1);
  }

  lemma Mirror4(p: seq<byte>, fields: seq<Field>, i: nat)
    requires Laid(fields, |p|) && i < |fields| && fields[i].width == 4
    ensures fields[i].offset + 4 <= |p| && Mirrored4(p, SwapAll(p, fields), fields[i].offset)
  {
    hide SwapAll;
    var at := fields[i].offset;
    SwapAllInside(p, fields, i, at);
    SwapAllInside(p, fields, i, at + 1);
    SwapAllInside(p, fields, i, at + 2);
    SwapAllInside(p, fields, i, at + 3);
  }

  lemma Kept(p: seq<byte>, fields: seq<Field>, lo: nat, hi: nat)
    requires lo <= hi <= |p|
    requires forall i :: 0 <= i < |fields| ==> fields[i].offset + fields[i].width <= lo || hi <= fields[i].offset
    ensures SwapAll(p, fields)[lo..hi] == p[lo..hi]
  {
    hide SwapAll;
    forall k | lo <= k < hi
      ensures SwapAll(p, fields)[k] == p[k]
    {
      SwapAllOutside(p, fields, k);
    }
  }

  lemma KeptFrom(p: seq<byte>, fields: seq<Field>, lo: nat)
    requires lo <= |p|
    requires forall i :: 0 <= i < |fields| ==> fields[i].offset + fields[i].width <= lo
    ensures SwapAll(p, fields)[lo..] == p[lo..]
  {
    hide SwapAll;
    Kept(p, fields, lo, |p|);
    var q := SwapAll(p, fields);
    assert q[lo..] == q[lo..|p|] && p[lo..] == p[lo..|p|];
  }

  lemma HeaderIs(p: seq<byte>, fields: seq<Field>)
    requires 28 <= |p| && Laid(fields, |p|) && |fields| >= 9 && fields[..9] == HEADER_FIELDS
    ensures MirroredHeader(p, SwapAll(p, fields))
  {
    hide SwapAll;
    hide Laid;
    hide Mirrored2;
    hide Mirrored4;
    assert forall i :: 0 <= i < 9 ==> fields[i] == HEADER_FIELDS[i];
    Mirror4(p, fields, 0);
    Mirror4(p, fields, 1);
    Mirror4(p, fields, 2);
    Mirror2(p, fields, 3);
    Mirror2(p, fields, 4);
    Mirror2(p, fields, 5);
    Mirror2(p, fields, 6);
    Mirror4(p, fields, 7);
    Mirror4(p, fields, 8);
  }

  // ---- by kind of packet ----

  /** Requests, and packets that are too short or unknown: the header and nothing else. */
  lemma HeaderOnly(p: seq<byte>, fromNetwork: bool, length: nat)
    requires Holds(p, fromNetwork, length)
    requires p[24..28] == [0, 0, 0, 0] || !LongEnough(OpcodeNumber(p, fromNetwork), length)
    ensures var q := Converted(p, fromNetwork, length);
            MirroredHeader(p, q) && q[28..] == p[28..]
  {
    hide SwapAll;
    ConvertsExactly(p, fromNetwork, length);
    FieldsAreLaid(p, fromNetwork, length);
    var fields := ConvertedFields(p, fromNetwork, length);
    assert fields == HEADER_FIELDS;
    HeaderIs(p, fields);
    KeptFrom(p, fields, 28);
  }

  lemma PayloadFieldsAre(p: seq<byte>, fromNetwork: bool, length: nat) returns (fields: seq<Field>)
    requires Holds(p, fromNetwork, length)
    requires p[24..28] != [0, 0, 0, 0] && LongEnough(OpcodeNumber(p, fromNetwork), length)
    ensures fields == ConvertedFields(p, fromNetwork, length) && Laid(fields, |p|)
    ensures var opcode := OpcodeNumber(p, fromNetwork);
            && (opcode == 2 ==> |p| >= 40)
            && fields == HEADER_FIELDS + PayloadFields(opcode, if opcode == 2 then ChannelNumber(p, fromNetwork) else 0)
    ensures MirroredHeader(p, Converted(p, fromNetwork, length))
  {
    hide SwapAll;
    hide HostValue;
    hide PayloadFields;
    ConvertsExactly(p, fromNetwork, length);
    OpcodeIs(p, fromNetwork);
    if OpcodeNumber(p, fromNetwork) == 2 {
      ChannelsAre(p, fromNetwork);
    }
    FieldsAreLaid(p, fromNetwork, length);
    fields := ConvertedFields(p, fromNetwork, length);
    HeaderIs(p, fields);
  }

  /** A node announcement: the MAC address and the IP address stay. */
  lemma NodeAnnouncement(p: seq<byte>, fromNetwork: bool, length: nat)
    requires Holds(p, fromNetwork, length) && p[24..28] != [0, 0, 0, 0]
    requires OpcodeNumber(p, fromNetwork) == 0 && length >= 64
    ensures var q := Converted(p, fromNetwork, length);
            && MirroredHeader(p, q) && Mirrored4(p, q, 28) && Mirrored4(p, q, 32) && q[36..42] == p[36..42]
            && Mirrored2(p, q, 42) && q[44..48] == p[44..48] && Mirrored4(p, q, 48)
            && Mirrored2(p, q, 52) && Mirrored2(p, q, 54) && Mirrored2(p, q, 56) && Mirrored2(p, q, 58)
            && Mirrored2(p, q, 60) && Mirrored2(p, q, 62) && q[64..] == p[64..]
  {
    hide SwapAll;
    hide Laid;
    hide MirroredHeader;
    hide Mirrored2;
    hide Mirrored4;
    var fields := PayloadFieldsAre(p, fromNetwork, length);
    Mirror4(p, fields, 9);
    Mirror4(p, fields, 10);
    Kept(p, fields, 36, 42);
    Mirror2(p, fields, 11);
    Kept(p, fields, 44, 48);
    Mirror4(p, fields, 12);
    Mirror2(p, fields, 13);
    Mirror2(p, fields, 14);
    Mirror2(p, fields, 15);
    Mirror2(p, fields, 16);
    Mirror2(p, fields, 17);
    Mirror2(p, fields, 18);
    KeptFrom(p, fields, 64);
  }

  /** A server announcement: the IP address and the status stay. */
  lemma ServerAnnouncement(p: seq<byte>, fromNetwork: bool, length: nat)
    requires Holds(p, fromNetwork, length) && p[24..28] != [0, 0, 0, 0]
    requires OpcodeNumber(p, fromNetwork) == 1 && length >= 46
    ensures var q := Converted(p, fromNetwork, length);
            && MirroredHeader(p, q)
            && Mirrored4(p, q, 28) && Mirrored4(p, q, 32) && q[36..40] == p[36..40] && Mirrored2(p, q, 40)
            && q[42..44] == p[42..44] && Mirrored2(p, q, 44) && q[46..] == p[46..]
  {
    hide SwapAll;
    hide Laid;
    hide MirroredHeader;
    hide Mirrored2;
    hide Mirrored4;
    var fields := PayloadFieldsAre(p, fromNetwork, length);
    Mirror4(p, fields, 9);
    Mirror4(p, fields, 10);
    Kept(p, fields, 36, 40);
    Mirror2(p, fields, 11);
    Kept(p, fields, 42, 44);
    Mirror2(p, fields, 12);
    KeptFrom(p, fields, 46);
  }

  /** A node status. */
  lemma NodeStatus(p: seq<byte>, fromNetwork: bool, length: nat)
    requires Holds(p, fromNetwork, length) && p[24..28] != [0, 0, 0, 0]
    requires OpcodeNumber(p, fromNetwork) == 3 && length >= 84
    ensures var q := Converted(p, fromNetwork, length);
            && MirroredHeader(p, q)
            && Mirrored4(p, q, 28) && Mirrored4(p, q, 32) && Mirrored4(p, q, 36) && Mirrored4(p, q, 40)
            && Mirrored4(p, q, 44) && Mirrored4(p, q, 48) && Mirrored4(p, q, 52) && Mirrored2(p, q, 56)
            && Mirrored2(p, q, 58) && Mirrored4(p, q, 60) && Mirrored4(p, q, 64) && Mirrored4(p, q, 68)
            && Mirrored4(p, q, 72) && Mirrored4(p, q, 76) && Mirrored4(p, q, 80) && q[84..] == p[84..]
  {
    hide SwapAll;
    hide Laid;
    hide MirroredHeader;
    hide Mirrored2;
    hide Mirrored4;
    var fields := PayloadFieldsAre(p, fromNetwork, length);
    Mirror4(p, fields, 9);
    Mirror4(p, fields, 10);
    Mirror4(p, fields, 11);
    Mirror4(p, fields, 12);
    Mirror4(p, fields, 13);
    Mirror4(p, fields, 14);
    Mirror4(p, fields, 15);
    Mirror2(p, fields, 16);
    Mirror2(p, fields, 17);
    Mirror4(p, fields, 18);
    Mirror4(p, fields, 19);
    Mirror4(p, fields, 20);
    Mirror4(p, fields, 21);
    Mirror4(p, fields, 22);
    Mirror4(p, fields, 23);
    KeptFrom(p, fields, 84);
  }

  /** Framebuffer data: the pixels stay. */
  lemma FramebufferData(p: seq<byte>, fromNetwork: bool, length: nat)
    requires Holds(p, fromNetwork, length) && p[24..28] != [0, 0, 0, 0]
    requires OpcodeNumber(p, fromNetwork) == 4 && length >= 40
    ensures var q := Converted(p, fromNetwork, length);
            && MirroredHeader(p, q)
            && Mirrored4(p, q, 28) && Mirrored4(p, q, 32) && Mirrored4(p, q, 36) && q[40..] == p[40..]
  {
    hide SwapAll;
    hide Laid;
    hide MirroredHeader;
    hide Mirrored2;
    hide Mirrored4;
    var fields := PayloadFieldsAre(p, fromNetwork, length);
    Mirror4(p, fields, 9);
    Mirror4(p, fields, 10);
    Mirror4(p, fields, 11);
    KeptFrom(p, fields, 40);
  }

  /** An output command. */
  lemma SyncOutput(p: seq<byte>, fromNetwork: bool, length: nat)
    requires Holds(p, fromNetwork, length) && p[24..28] != [0, 0, 0, 0]
    requires OpcodeNumber(p, fromNetwork) == 6 && length >= 32
    ensures var q := Converted(p, fromNetwork, length);
            && MirroredHeader(p, q)
            && Mirrored4(p, q, 28) && q[32..] == p[32..]
  {
    hide SwapAll;
    hide Laid;
    hide MirroredHeader;
    hide Mirrored2;
    hide Mirrored4;
    var fields := PayloadFieldsAre(p, fromNetwork, length);
    Mirror4(p, fields, 9);
    KeptFrom(p, fields, 32);
  }

  /** A reconfiguration: the whole payload stays. */
  lemma NodeReconfig(p: seq<byte>, fromNetwork: bool, length: nat)
    requires Holds(p, fromNetwork, length) && p[24..28] != [0, 0, 0, 0]
    requires OpcodeNumber(p, fromNetwork) == 12 && length >= 40
    ensures var q := Converted(p, fromNetwork, length);
            && MirroredHeader(p, q)
            && q[28..] == p[28..]
  {
    hide SwapAll;
    hide Laid;
    hide MirroredHeader;
    hide Mirrored2;
    hide Mirrored4;
    var fields := PayloadFieldsAre(p, fromNetwork, length);
    KeptFrom(p, fields, 28);
  }

  /** A node adoption: the IP address stays, and as many array entries are swapped as the packet says. */
  lemma NodeAdoption(p: seq<byte>, fromNetwork: bool, length: nat)
    requires Holds(p, fromNetwork, length) && p[24..28] != [0, 0, 0, 0]
    requires OpcodeNumber(p, fromNetwork) == 2 && length >= 40
    ensures var q, n := Converted(p, fromNetwork, length), ChannelNumber(p, fromNetwork);
            && MirroredHeader(p, q) && q[28..32] == p[28..32]
            && Mirrored2(p, q, 32) && Mirrored2(p, q, 34) && Mirrored4(p, q, 36)
            && 40 + 4 * n <= |p|
            && (forall j :: 0 <= j < n ==> Mirrored4(p, q, 40 + 4 * j))
            && q[40 + 4 * n..] == p[40 + 4 * n..]
  {
    hide SwapAll;
    hide MirroredHeader;
    hide Mirrored2;
    hide Mirrored4;
    hide PayloadFields;
    hide ChannelNumber;
    hide OpcodeNumber;
    hide ChannelFields;
    hide Holds;
    hide ConvertedFields;
    var fields := PayloadFieldsAre(p, fromNetwork, length);
    AdoptionPayload(ChannelNumber(p, fromNetwork));
    AdoptionFields(p, fields, ChannelNumber(p, fromNetwork));
  }

  lemma AdoptionPayload(n: nat)
    ensures PayloadFields(2, n) == NODE_ADOPTION_FIELDS + ChannelFields(n)
  {
  }

  lemma AdoptionTable(fields: seq<Field>, n: nat)
    requires fields == HEADER_FIELDS + (NODE_ADOPTION_FIELDS + ChannelFields(n))
    ensures |fields| == 12 + n
    ensures fields[9] == Field(32, 2) && fields[10] == Field(34, 2) && fields[11] == Field(36, 4)
    ensures forall i :: 0 <= i < 9 ==> fields[i].offset + fields[i].width <= 28
    ensures forall i :: 12 <= i < 12 + n ==> fields[i] == Field(4 * i - 8, 4)
  {
    hide ChannelFields;
    var tail := NODE_ADOPTION_FIELDS + ChannelFields(n);
    forall i | 12 <= i < 12 + n
      ensures fields[i] == Field(4 * i - 8, 4)
    {
      assert fields[i] == tail[i - 9] == ChannelFields(n)[i - 12];
    }
  }

  lemma AdoptionFields(p: seq<byte>, fields: seq<Field>, n: nat)
    requires |p| >= 40 && Laid(fields, |p|) && fields == HEADER_FIELDS + (NODE_ADOPTION_FIELDS + ChannelFields(n))
    ensures var q := SwapAll(p, fields);
            && q[28..32] == p[28..32]
            && Mirrored2(p, q, 32) && Mirrored2(p, q, 34) && Mirrored4(p, q, 36)
            && 40 + 4 * n <= |p|
            && (forall j :: 0 <= j < n ==> Mirrored4(p, q, 40 + 4 * j))
            && q[40 + 4 * n..] == p[40 + 4 * n..]
  {
    hide SwapAll;
    hide ChannelFields;
    hide Laid;
    hide Mirrored2;
    hide Mirrored4;
    AdoptionTable(fields, n);
    AdoptionArray(p, fields, n);
    Kept(p, fields, 28, 32);
    Mirror2(p, fields, 9);
    Mirror2(p, fields, 10);
    Mirror4(p, fields, 11);
  }

  lemma AdoptionArray(p: seq<byte>, fields: seq<Field>, n: nat)
    requires |p| >= 40 && Laid(fields, |p|) && |fields| == 12 + n
    requires fields[9] == Field(32, 2) && fields[10] == Field(34, 2) && fields[11] == Field(36, 4)
    requires forall i :: 0 <= i < 9 ==> fields[i].offset + fields[i].width <= 28
    requires forall i :: 12 <= i < 12 + n ==> fields[i] == Field(4 * i - 8, 4)
    ensures var q := SwapAll(p, fields);
            && 40 + 4 * n <= |p|
            && (forall j :: 0 <= j < n ==> Mirrored4(p, q, 40 + 4 * j))
            && q[40 + 4 * n..] == p[40 + 4 * n..]
  {
    hide SwapAll;
    hide Laid;
    hide Mirrored4;
    if n > 0 {
      InsideWhenLaid(fields, 11 + n, |p|);
    }
    forall j | 0 <= j < n
      ensures Mirrored4(p, SwapAll(p, fields), 40 + 4 * j)
    {
      Mirror4(p, fields, 12 + j);
    }
    KeptFrom(p, fields, 40 + 4 * n);
  }
}
