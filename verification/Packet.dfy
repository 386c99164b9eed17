/** Byte order conversion of whole packets, in place. */
module Packet {
  import opened Bytes
  import opened PacketFields

  const HEADER_SIZE := 28

  const OP_NODE_ANNOUNCEMENT := 0
  const OP_SERVER_ANNOUNCEMENT := 1
  const OP_NODE_ADOPTION := 2
  const OP_NODE_STATUS := 3
  const OP_FRAMEBUFFER_DATA := 4
  const OP_SYNC_OUTPUT := 6
  const OP_NODE_RECONFIG := 12

  // ---- where the multi-byte fields are ----

  const HEADER_FIELDS: seq<Field> :=
    [Field(0, 4), Field(4, 4), Field(8, 4), Field(12, 2), Field(14, 2), Field(16, 2), Field(18, 2), Field(20, 4),
            Field(24, 4)]

  const NODE_ANNOUNCEMENT_FIELDS: seq<Field> :=
    [Field(28, 4), Field(32, 4), Field(42, 2), Field(48, 4), Field(52, 2), Field(54, 2), Field(56, 2), Field(58, 2),
            Field(60, 2), Field(62, 2)]

  const SERVER_ANNOUNCEMENT_FIELDS: seq<Field> :=
    [Field(28, 4), Field(32, 4), Field(40, 2), Field(44, 2)]

  const NODE_STATUS_FIELDS: seq<Field> :=
    [Field(28, 4), Field(32, 4), Field(36, 4), Field(40, 4), Field(44, 4), Field(48, 4), Field(52, 4), Field(56, 2),
            Field(58, 2),
     Field(60, 4), Field(64, 4), Field(68, 4), Field(72, 4), Field(76, 4), Field(80, 4)]

  const FRAMEBUFFER_DATA_FIELDS: seq<Field> := [Field(28, 4), Field(32, 4), Field(36, 4)]

  const SYNC_OUTPUT_FIELDS: seq<Field> := [Field(28, 4)]

  const NODE_ADOPTION_FIELDS: seq<Field> := [Field(32, 2), Field(34, 2), Field(36, 4)]

  /** The adoption packet's pixelsPerChannel array. */
  function ChannelFields(n: nat): (fields: seq<Field>)
    ensures |fields| == n && forall i :: 0 <= i < n ==> fields[i] == Field(40 + 4 * i, 4)
  {
    if n == 0 then [] else ChannelFields(n - 1) + [Field(40 + 4 * (n - 1), 4)]
  }

  function PayloadFields(opcode: nat, channels: nat): seq<Field> {
    if opcode == OP_NODE_ANNOUNCEMENT then NODE_ANNOUNCEMENT_FIELDS
    else if opcode == OP_SERVER_ANNOUNCEMENT then SERVER_ANNOUNCEMENT_FIELDS
    else if opcode == OP_NODE_STATUS then NODE_STATUS_FIELDS
    else if opcode == OP_FRAMEBUFFER_DATA then FRAMEBUFFER_DATA_FIELDS
    else if opcode == OP_SYNC_OUTPUT then SYNC_OUTPUT_FIELDS
    else if opcode == OP_NODE_ADOPTION then NODE_ADOPTION_FIELDS + ChannelFields(channels)
    else []
  }

  predicate IsKnown(opcode: nat) {
    opcode <= OP_FRAMEBUFFER_DATA || opcode == OP_SYNC_OUTPUT || opcode == OP_NODE_RECONFIG
  }

  /** The length a known packet with a payload must have. */
  function MinimumLength(opcode: nat): nat {
    if opcode == OP_NODE_ANNOUNCEMENT then 64
    else if opcode == OP_SERVER_ANNOUNCEMENT then 46
    else if opcode == OP_NODE_STATUS then 84
    else if opcode == OP_SYNC_OUTPUT then 32
    else 40
  }

  // ---- what one conversion does to a whole packet ----

  /** A field's value to the host that runs the conversion. */
  function HostValue(p: seq<byte>, fromNetwork: bool, f: Field): nat
    requires f.offset + f.width <= |p|
  {
    var b := p[f.offset..f.offset + f.width];
    if fromNetwork then BigEndian(b) else LittleEndian(b)
  }

  function Opcode(p: seq<byte>, fromNetwork: bool): nat
    requires |p| >= HEADER_SIZE
  {
    HostValue(p, fromNetwork, Field(12, 2))
  }

  function Channels(p: seq<byte>, fromNetwork: bool): nat
    requires |p| >= 40
  {
    HostValue(p, fromNetwork, Field(36, 4))
  }

  /** A payload length of zero marks a request, whose payload is left alone. */
  predicate HasPayload(p: seq<byte>)
    requires |p| >= HEADER_SIZE
  {
    LittleEndian(p[24..28]) != 0
  }

  predicate Converts(p: seq<byte>, fromNetwork: bool, length: nat)
    requires |p| >= HEADER_SIZE
  {
    HasPayload(p) && IsKnown(Opcode(p, fromNetwork)) && length >= MinimumLength(Opcode(p, fromNetwork))
  }

  /** The buffer holds the header, the length it is said to have, and the per-channel array. */
  predicate Holds(p: seq<byte>, fromNetwork: bool, length: nat) {
    && HEADER_SIZE <= |p| && length <= |p|
    && (Converts(p, fromNetwork, length) && Opcode(p, fromNetwork) == OP_NODE_ADOPTION
        ==> 40 + 4 * Channels(p, fromNetwork) <= |p|)
  }

  function ConvertedFields(p: seq<byte>, fromNetwork: bool, length: nat): seq<Field>
    requires Holds(p, fromNetwork, length)
  {
    HEADER_FIELDS +
    if Converts(p, fromNetwork, length)
    then PayloadFields(Opcode(p, fromNetwork),
            if Opcode(p, fromNetwork) == OP_NODE_ADOPTION then Channels(p, fromNetwork) else 0)
    else []
  }

  function Converted(p: seq<byte>, fromNetwork: bool, length: nat): (q: seq<byte>)
    requires Holds(p, fromNetwork, length)
    ensures |q| == |p|
  {
    SwapAll(p, ConvertedFields(p, fromNetwork, length))
  }

  function ReturnCode(p: seq<byte>, fromNetwork: bool, length: nat): int
    requires Holds(p, fromNetwork, length)
  {
    if !HasPayload(p) || Converts(p, fromNetwork, length) then 0 else -1
  }

  // ---- the two directions undo each other ----

  lemma AnnouncementIsLaid()
    ensures Laid(NODE_ANNOUNCEMENT_FIELDS, 64)
  {
  }

  lemma StatusIsLaid()
    ensures Laid(NODE_STATUS_FIELDS, 84)
  {
  }

  lemma PayloadIsLaid(opcode: nat, channels: nat, n: nat)
    requires IsKnown(opcode) && MinimumLength(opcode) <= n
    requires opcode == OP_NODE_ADOPTION ==> 40 + 4 * channels <= n
    ensures Laid(PayloadFields(opcode, channels), n)
    ensures forall i :: 0 <= i < |PayloadFields(opcode, channels)| ==>
        HEADER_SIZE <= PayloadFields(opcode, channels)[i].offset
  {
    if opcode == OP_NODE_ANNOUNCEMENT {
      AnnouncementIsLaid();
    } else if opcode == OP_NODE_STATUS {
      StatusIsLaid();
    } else if opcode == OP_NODE_ADOPTION {
      assert Laid(ChannelFields(channels), n);
      LaidConcat(NODE_ADOPTION_FIELDS, ChannelFields(channels), 40, n);
    }
  }

  lemma LaidConcat(front: seq<Field>, back: seq<Field>, at: nat, n: nat)
    requires Laid(front, at) && Laid(back, n) && at <= n
    requires forall i :: 0 <= i < |back| ==> at <= back[i].offset
    ensures Laid(front + back, n)
  {
  }

  lemma FieldsAreLaid(p: seq<byte>, fromNetwork: bool, length: nat)
    requires Holds(p, fromNetwork, length)
    ensures Laid(ConvertedFields(p, fromNetwork, length), |p|)
  {
    hide HostValue;
    hide PayloadFields;
    assert Laid(HEADER_FIELDS, HEADER_SIZE);
    LaidConcat(HEADER_FIELDS, [], HEADER_SIZE, |p|);
    if Converts(p, fromNetwork, length) {
      var opcode := Opcode(p, fromNetwork);
      var channels := if opcode == OP_NODE_ADOPTION then Channels(p, fromNetwork) else 0;
      PayloadIsLaid(opcode, channels, |p|);
      LaidConcat(HEADER_FIELDS, PayloadFields(opcode, channels), HEADER_SIZE, |p|);
    }
  }

  lemma ByteIsZero(x: byte)
    ensures x as nat == 0 <==> x == 0
  {
  }

  lemma {:induction false} ZeroValue(b: seq<byte>)
    ensures LittleEndian(b) == 0 <==> forall i :: 0 <= i < |b| ==> b[i] == 0
    decreases |b|
  {
    if b != [] {
      ByteIsZero(b[0]);
      ZeroValue(b[1..]);
    }
  }

  /** Converting keeps what the other direction needs to know. */
  lemma ConvertedLooksSame(p: seq<byte>, fromNetwork: bool, length: nat)
    requires Holds(p, fromNetwork, length)
    ensures var q := Converted(p, fromNetwork, length);
            && HasPayload(q) == HasPayload(p)
            && Opcode(q, !fromNetwork) == Opcode(p, fromNetwork)
            && Holds(q, !fromNetwork, length)
            && ConvertedFields(q, !fromNetwork, length) == ConvertedFields(p, fromNetwork, length)
  {
    hide HostValue;
    hide SwapAll;
    var fields := ConvertedFields(p, fromNetwork, length);
    var q := Converted(p, fromNetwork, length);
    FieldsAreLaid(p, fromNetwork, length);
    assert fields[3] == Field(12, 2) && fields[8] == Field(24, 4);
    SwappedValue(p, fields, 3, fromNetwork);
    SwappedPayloadLength(p, fields);
    if Converts(p, fromNetwork, length) && Opcode(p, fromNetwork) == OP_NODE_ADOPTION {
      assert fields[11] == Field(36, 4);
      SwappedValue(p, fields, 11, fromNetwork);
    }
  }

  lemma SwappedValue(p: seq<byte>, fields: seq<Field>, i: nat, fromNetwork: bool)
    requires Laid(fields, |p|) && i < |fields|
    ensures HostValue(SwapAll(p, fields), !fromNetwork, fields[i]) == HostValue(p, fromNetwork, fields[i])
  {
    SwappedField(p, fields, i);
  }

  lemma SwappedPayloadLength(p: seq<byte>, fields: seq<Field>)
    requires |p| >= HEADER_SIZE && Laid(fields, |p|) && |fields| > 8 && fields[8] == Field(24, 4)
    ensures HasPayload(SwapAll(p, fields)) == HasPayload(p)
  {
    hide SwapAll;
    hide LittleEndian;
    var q := SwapAll(p, fields);
    ZeroValue(p[24..28]);
    ZeroValue(q[24..28]);
    forall k | 24 <= k < 28
      ensures q[k] == p[51 - k]
    {
      SwapAllInside(p, fields, 8, k);
    }
    assert p[24..28][0] == p[24] && p[24..28][1] == p[25] && p[24..28][2] == p[26] && p[24..28][3] == p[27];
    assert q[24..28][0] == q[24] && q[24..28][1] == q[25] && q[24..28][2] == q[26] && q[24..28][3] == q[27];
  }

  /** There and back restores every byte, through the same branch with the same return code. */
  lemma RoundTrip(p: seq<byte>, fromNetwork: bool, length: nat)
    requires Holds(p, fromNetwork, length)
    ensures var q := Converted(p, fromNetwork, length);
            && Holds(q, !fromNetwork, length)
            && Converted(q, !fromNetwork, length) == p
            && ReturnCode(q, !fromNetwork, length) == ReturnCode(p, fromNetwork, length)
  {
    ConvertedLooksSame(p, fromNetwork, length);
    FieldsAreLaid(p, fromNetwork, length);
    SwapAllTwice(p, ConvertedFields(p, fromNetwork, length));
  }

  // ---- what ends up in network order ----

  /** On the way out every listed field is big-endian, and every byte outside the fields is kept. */
  lemma NetworkOrder(p: seq<byte>, length: nat)
    requires Holds(p, false, length)
    ensures var q, fields := Converted(p, false, length), ConvertedFields(p, false, length);
            && (forall i :: 0 <= i < |fields| ==>
                  && fields[i].offset + fields[i].width <= |p|
                  && HostValue(q, true, fields[i]) == HostValue(p, false, fields[i]))
            && (forall k :: 0 <= k < |p| && (forall i :: 0 <= i < |fields| ==> !fields[i].Covers(k)) ==> q[k] == p[k])
  {
    hide HostValue;
    hide SwapAll;
    var fields := ConvertedFields(p, false, length);
    FieldsAreLaid(p, false, length);
    forall i | 0 <= i < |fields|
      ensures fields[i].offset + fields[i].width <= |p|
      ensures HostValue(Converted(p, false, length), true, fields[i]) == HostValue(p, false, fields[i])
    {
      SwappedValue(p, fields, i, false);
    }
    forall k | 0 <= k < |p| && (forall i :: 0 <= i < |fields| ==> !fields[i].Covers(k))
      ensures Converted(p, false, length)[k] == p[k]
    {
      SwapAllOutside(p, fields, k);
    }
  }

  /** The fields the protocol has but the conversion forgets: the status of a server announcement
      and the host name length of a reconfiguration. */
  function ForgottenField(opcode: nat): Field
    requires opcode == OP_SERVER_ANNOUNCEMENT || opcode == OP_NODE_RECONFIG
  {
    if opcode == OP_SERVER_ANNOUNCEMENT then Field(42, 2) else Field(28, 2)
  }

  /** A forgotten field goes out in network order only when its two bytes agree. */
  lemma ForgottenFieldOrder(p: seq<byte>, length: nat)
    requires Holds(p, false, length) && Converts(p, false, length)
    requires Opcode(p, false) == OP_SERVER_ANNOUNCEMENT || Opcode(p, false) == OP_NODE_RECONFIG
    ensures var f := ForgottenField(Opcode(p, false));
            && f.offset + 2 <= |p|
            && (HostValue(Converted(p, false, length), true, f) == HostValue(p, false, f) <==>
                p[f.offset] == p[f.offset + 1])
  {
    hide SwapAll;
    hide LittleEndian;
    hide BigEndian;
    var f := ForgottenField(Opcode(p, false));
    var q := Converted(p, false, length);
    ForgottenIsUncovered(Opcode(p, false));
    SwapAllOutside(p, ConvertedFields(p, false, length), f.offset);
    SwapAllOutside(p, ConvertedFields(p, false, length), f.offset + 1);
    PairOrder(p, q, f.offset);
    hide ConvertedFields;
    hide Converts;
  }

  /** A server announcement with a payload and status 1, in host order. */
  function AnnouncementWithStatus(): (p: seq<byte>)
    ensures |p| == 46 && p[42] == 1 && p[43] == 0
    ensures p[12..14] == [1, 0] && p[24..28] == [18, 0, 0, 0]
  {
    seq(46, k => if k == 12 || k == 42 then 1 else if k == 24 then 18 else 0)
  }

  /** A node takes its status for another number. */
  lemma StatusIsMisread()
    ensures var p := AnnouncementWithStatus();
            && Holds(p, false, 46) && Converts(p, false, 46) && Opcode(p, false) == OP_SERVER_ANNOUNCEMENT
            && HostValue(p, false, Field(42, 2)) == 1
            && HostValue(Converted(p, false, 46), true, Field(42, 2)) != 1
  {
    var p := AnnouncementWithStatus();
    TwoBytes(p[12..14]);
    TwoBytes(p[42..44]);
    assert p[24..28][0] != 0;
    ZeroValue(p[24..28]);
    hide AnnouncementWithStatus;
    hide Converted;
    hide LittleEndian;
    hide BigEndian;
    ForgottenFieldOrder(p, 46);
  }

  lemma PairOrder(p: seq<byte>, q: seq<byte>, at: nat)
    requires at + 2 <= |p| == |q| && q[at] == p[at] && q[at + 1] == p[at + 1]
    ensures BigEndian(q[at..at + 2]) == LittleEndian(p[at..at + 2]) <==> p[at] == p[at + 1]
  {
    TwoBytes(q[at..at + 2]);
    TwoBytes(p[at..at + 2]);
    SameNumber(p[at], p[at + 1]);
    hide LittleEndian;
    hide BigEndian;
  }

  lemma ForgottenIsUncovered(opcode: nat)
    requires opcode == OP_SERVER_ANNOUNCEMENT || opcode == OP_NODE_RECONFIG
    ensures var f, fields := ForgottenField(opcode), HEADER_FIELDS + PayloadFields(opcode, 0);
            forall i :: 0 <= i < |fields| ==> !fields[i].Covers(f.offset) && !fields[i].Covers(f.offset + 1)
  {
  }

  lemma TwoBytes(b: seq<byte>)
    requires |b| == 2
    ensures LittleEndian(b) == b[0] as nat + 256 * b[1] as nat
    ensures BigEndian(b) == 256 * b[0] as nat + b[1] as nat
  {
    assert b[1..] == [b[1]] && b[..1] == [b[0]] && [b[1]][1..] == [] && [b[0]][..0] == [];
    assert LittleEndian([b[1]]) == b[1] as nat && BigEndian([b[0]]) == b[0] as nat;
  }

  lemma SameNumber(x: byte, y: byte)
    ensures x as nat == y as nat <==> x == y
  {
  }

  // ---- in place ----

  method Swap16(packet: array<byte>, at: nat, ghost was: seq<byte>, ghost done: seq<Field>)
    returns (ghost now: seq<Field>)
    requires at + 2 <= packet.Length && packet[..] == SwapAll(was, done)
    modifies packet
    ensures packet[..] == SwapField(old(packet[..]), Field(at, 2))
    ensures now == done + [Field(at, 2)] && packet[..] == SwapAll(was, now)
  {
    now := done + [Field(at, 2)];
    SwapAllSnoc(was, done, Field(at, 2));
    hide SwapAll;
    hide SwapField;
    Reverse16(packet, at);
  }

  method Swap32(packet: array<byte>, at: nat, ghost was: seq<byte>, ghost done: seq<Field>)
    returns (ghost now: seq<Field>)
    requires at + 4 <= packet.Length && packet[..] == SwapAll(was, done)
    modifies packet
    ensures packet[..] == SwapField(old(packet[..]), Field(at, 4))
    ensures now == done + [Field(at, 4)] && packet[..] == SwapAll(was, now)
  {
    now := done + [Field(at, 4)];
    SwapAllSnoc(was, done, Field(at, 4));
    hide SwapAll;
    hide SwapField;
    Reverse32(packet, at);
  }

  /** __builtin_bswap16 on the two bytes of a field. */
  method Reverse16(packet: array<byte>, at: nat)
    requires at + 2 <= packet.Length
    modifies packet
    ensures packet[..] == SwapField(old(packet[..]), Field(at, 2))
  {
    ghost var p := packet[..];
    var b0, b1 := packet[at], packet[at + 1];
    packet[at] := b1;
    packet[at + 1] := b0;
    forall k | 0 <= k < packet.Length
      ensures packet[k] == SwapField(p, Field(at, 2))[k]
    {
      if at <= k < at + 2 {
        assert k == at || k == at + 1;
      }
    }
  }

  /** __builtin_bswap32 on the four bytes of a field. */
  method Reverse32(packet: array<byte>, at: nat)
    requires at + 4 <= packet.Length
    modifies packet
    ensures packet[..] == SwapField(old(packet[..]), Field(at, 4))
  {
    ghost var p := packet[..];
    var b0, b1, b2, b3 := packet[at], packet[at + 1], packet[at + 2], packet[at + 3];
    packet[at] := b3;
    packet[at + 1] := b2;
    packet[at + 2] := b1;
    packet[at + 3] := b0;
    forall k | 0 <= k < packet.Length
      ensures packet[k] == SwapField(p, Field(at, 4))[k]
    {
      if at <= k < at + 4 {
        assert k == at || k == at + 1 || k == at + 2 || k == at + 3;
      }
    }
  }

  method SwapNodeAnnouncement(packet: array<byte>, ghost was: seq<byte>, ghost done: seq<Field>)
    returns (ghost now: seq<Field>)
    requires 64 <= packet.Length && packet[..] == SwapAll(was, done)
    modifies packet
    ensures now == done + NODE_ANNOUNCEMENT_FIELDS && packet[..] == SwapAll(was, now)
  {
    hide SwapAll;
    now := Swap32(packet, 28, was, done);
    now := Swap32(packet, 32, was, now);
    now := Swap16(packet, 42, was, now);
    now := Swap32(packet, 48, was, now);
    now := Swap16(packet, 52, was, now);
    now := Swap16(packet, 54, was, now);
    now := Swap16(packet, 56, was, now);
    now := Swap16(packet, 58, was, now);
    now := Swap16(packet, 60, was, now);
    now := Swap16(packet, 62, was, now);
  }

  method SwapServerAnnouncement(packet: array<byte>, ghost was: seq<byte>, ghost done: seq<Field>)
    returns (ghost now: seq<Field>)
    requires 46 <= packet.Length && packet[..] == SwapAll(was, done)
    modifies packet
    ensures now == done + SERVER_ANNOUNCEMENT_FIELDS && packet[..] == SwapAll(was, now)
  {
    hide SwapAll;
    now := Swap32(packet, 28, was, done);
    now := Swap32(packet, 32, was, now);
    now := Swap16(packet, 40, was, now);
    now := Swap16(packet, 44, was, now);
  }

  method SwapNodeStatus(packet: array<byte>, ghost was: seq<byte>, ghost done: seq<Field>)
    returns (ghost now: seq<Field>)
    requires 84 <= packet.Length && packet[..] == SwapAll(was, done)
    modifies packet
    ensures now == done + NODE_STATUS_FIELDS && packet[..] == SwapAll(was, now)
  {
    hide SwapAll;
    now := Swap32(packet, 28, was, done);
    now := Swap32(packet, 32, was, now);
    now := Swap32(packet, 36, was, now);
    now := Swap32(packet, 40, was, now);
    now := Swap32(packet, 44, was, now);
    now := Swap32(packet, 48, was, now);
    now := Swap32(packet, 52, was, now);
    now := Swap16(packet, 56, was, now);
    now := Swap16(packet, 58, was, now);
    now := Swap32(packet, 60, was, now);
    now := Swap32(packet, 64, was, now);
    now := Swap32(packet, 68, was, now);
    now := Swap32(packet, 72, was, now);
    now := Swap32(packet, 76, was, now);
    now := Swap32(packet, 80, was, now);
  }

  /** The adoption branch: the loop is bounded by the channel count in host order. */
  method SwapNodeAdoption(packet: array<byte>, fromNetworkOrder: bool, ghost was: seq<byte>, ghost done: seq<Field>)
    returns (ghost now: seq<Field>)
    requires 40 <= packet.Length && packet[..] == SwapAll(was, done)
    requires 40 + 4 * Channels(packet[..], fromNetworkOrder) <= packet.Length
    modifies packet
    ensures now == done + (NODE_ADOPTION_FIELDS + ChannelFields(old(Channels(packet[..], fromNetworkOrder))))
    ensures packet[..] == SwapAll(was, now)
  {
    hide SwapAll;
    hide SwapField;
    hide LittleEndian;
    hide BigEndian;
    ghost var p0 := packet[..];
    now := Swap16(packet, 32, was, done);
    ghost var p1 := packet[..];
    now := Swap16(packet, 34, was, now);
    SwapFieldElsewhere(p0, Field(32, 2), 36, 40);
    SwapFieldElsewhere(p1, Field(34, 2), 36, 40);
    var numChannels;
    numChannels, now := SwapChannelCount(packet, fromNetworkOrder, was, now);
    for i := 0 to numChannels
      invariant now == done + (NODE_ADOPTION_FIELDS + ChannelFields(i))
      invariant packet[..] == SwapAll(was, now)
    {
      now := Swap32(packet, 40 + 4 * i, was, now);
    }
  }

  /** The channel count is kept in host order as well. */
  method SwapChannelCount(packet: array<byte>, fromNetworkOrder: bool, ghost was: seq<byte>, ghost done: seq<Field>)
    returns (numChannels: nat, ghost now: seq<Field>)
    requires 40 <= packet.Length && packet[..] == SwapAll(was, done)
    modifies packet
    ensures numChannels == old(Channels(packet[..], fromNetworkOrder))
    ensures now == done + [Field(36, 4)] && packet[..] == SwapAll(was, now)
  {
    hide SwapAll;
    SwapFieldValue(packet[..], Field(36, 4));
    hide SwapField;
    hide LittleEndian;
    hide BigEndian;
    if fromNetworkOrder {
      now := Swap32(packet, 36, was, done);
      numChannels := LittleEndian(packet[36..40]);
    } else {
      numChannels := LittleEndian(packet[36..40]);
      now := Swap32(packet, 36, was, done);
    }
  }

  method SwapHeader(packet: array<byte>, fromNetworkOrder: bool) returns (opcode: nat)
    requires HEADER_SIZE <= packet.Length
    modifies packet
    ensures opcode == Opcode(old(packet[..]), fromNetworkOrder)
    ensures packet[..] == SwapAll(old(packet[..]), HEADER_FIELDS)
  {
    ghost var was := packet[..];
    ghost var done: seq<Field> := [];
    assert SwapAll(was, done) == was;
    hide SwapAll;
    hide SwapField;
    hide LittleEndian;
    hide BigEndian;
    done := Swap32(packet, 0, was, done);
    done := Swap32(packet, 4, was, done);
    done := Swap32(packet, 8, was, done);
    UntouchedBehind(was, done, 12, 14);
    opcode, done := SwapOpcode(packet, fromNetworkOrder, was, done);
    done := Swap16(packet, 14, was, done);
    done := Swap16(packet, 16, was, done);
    done := Swap16(packet, 18, was, done);
    done := Swap32(packet, 20, was, done);
    done := Swap32(packet, 24, was, done);
    assert done == HEADER_FIELDS;
  }

  /** The opcode is kept in host order: read after swapping it in, or before swapping it out. */
  method SwapOpcode(packet: array<byte>, fromNetworkOrder: bool, ghost was: seq<byte>, ghost done: seq<Field>)
    returns (opcode: nat, ghost now: seq<Field>)
    requires HEADER_SIZE <= packet.Length && packet[..] == SwapAll(was, done)
    modifies packet
    ensures opcode == Opcode(old(packet[..]), fromNetworkOrder)
    ensures now == done + [Field(12, 2)] && packet[..] == SwapAll(was, now)
  {
    hide SwapAll;
    ghost var p := packet[..];
    SwapFieldValue(p, Field(12, 2));
    hide SwapField;
    hide LittleEndian;
    hide BigEndian;
    if fromNetworkOrder {
      now := Swap16(packet, 12, was, done);
      opcode := LittleEndian(packet[12..14]);
    } else {
      opcode := LittleEndian(packet[12..14]);
      now := Swap16(packet, 12, was, done);
    }
  }

  lemma UntouchedBehind(p: seq<byte>, fields: seq<Field>, lo: nat, hi: nat)
    requires lo <= hi <= |p|
    requires forall i :: 0 <= i < |fields| ==> fields[i].offset + fields[i].width <= lo
    ensures SwapAll(p, fields)[lo..hi] == p[lo..hi]
  {
    forall k | lo <= k < hi
      ensures SwapAll(p, fields)[k] == p[k]
    {
      SwapAllOutside(p, fields, k);
    }
  }

  /** The channel count is not yet swapped when the adoption branch begins. */
  lemma ChannelsAfterHeader(p: seq<byte>, fromNetwork: bool)
    requires |p| >= 40
    ensures Channels(SwapAll(p, HEADER_FIELDS), fromNetwork) == Channels(p, fromNetwork)
  {
    UntouchedBehind(p, HEADER_FIELDS, 36, 40);
  }

  method ConvertPacketByteOrder(packet: array<byte>, fromNetworkOrder: bool, length: nat) returns (code: int)
    requires Holds(packet[..], fromNetworkOrder, length)
    modifies packet
    ensures packet[..] == Converted(old(packet[..]), fromNetworkOrder, length)
    ensures code == ReturnCode(old(packet[..]), fromNetworkOrder, length)
  {
    hide SwapAll;
    hide SwapField;
    hide LittleEndian;
    hide BigEndian;
    ghost var was := packet[..];
    ghost var done := HEADER_FIELDS;
    var opcode := SwapHeader(packet, fromNetworkOrder);
    assert Laid(HEADER_FIELDS, |was|);
    SwappedPayloadLength(was, HEADER_FIELDS);
    if packet.Length >= 40 {
      ChannelsAfterHeader(was, fromNetworkOrder);
    }
    assert done + [] == done;
    if LittleEndian(packet[24..28]) == 0 {
      return 0;
    }
    if opcode == OP_NODE_ANNOUNCEMENT {
      if length < 64 {
        return -1;
      }
      done := SwapNodeAnnouncement(packet, was, done);
    } else if opcode == OP_SERVER_ANNOUNCEMENT {
      if length < 46 {
        return -1;
      }
      done := SwapServerAnnouncement(packet, was, done);
    } else if opcode == OP_NODE_STATUS {
      if length < 84 {
        return -1;
      }
      done := SwapNodeStatus(packet, was, done);
    } else if opcode == OP_FRAMEBUFFER_DATA {
      if length < 40 {
        return -1;
      }
      done := Swap32(packet, 28, was, done);
      done := Swap32(packet, 32, was, done);
      done := Swap32(packet, 36, was, done);
      assert done == HEADER_FIELDS + FRAMEBUFFER_DATA_FIELDS;
    } else if opcode == OP_SYNC_OUTPUT {
      if length < 32 {
        return -1;
      }
      done := Swap32(packet, 28, was, done);
      assert done == HEADER_FIELDS + SYNC_OUTPUT_FIELDS;
    } else if opcode == OP_NODE_ADOPTION {
      if length < 40 {
        return -1;
      }
      done := SwapNodeAdoption(packet, fromNetworkOrder, was, done);
    } else if opcode == OP_NODE_RECONFIG {
      // the guard is that of the adoption packet, and no field is swapped
      if length < 40 {
        return -1;
      }
    } else {
      return -1;
    }
    code := 0;
  }
}
