/** Filling in headers, checksumming packets and validating what arrives. */
module PacketChecksum {
  import opened Bytes
  import opened PacketFields
  import opened Packet
  import Crc
  import Crc32
  import CrcBurst

  const MAGIC: bv32 := 0x4c49_4348
  const VERSION_10: bv32 := 0x0001_0000
  const FLAG_CHECKSUMMED: bv16 := 1

  datatype PacketError = NoError | InvalidChecksum | PacketTooSmall | InvalidMagic

  // ---- loads, stores and byte swaps of a little-endian host ----

  function Bswap32(v: bv32): bv32 {
    (v >> 24) | ((v >> 8) & 0xFF00) | ((v << 8) & 0xFF_0000) | (v << 24)
  }

  function Bswap16(v: bv16): bv16 {
    (v >> 8) | (v << 8)
  }

  function Load32(p: seq<byte>, at: nat): bv32
    requires at + 4 <= |p|
  {
    Crc.Word(p[at..at + 4])
  }

  function Load16(p: seq<byte>, at: nat): bv16
    requires at + 2 <= |p|
  {
    (p[at + 1] as bv16 << 8) | p[at] as bv16
  }

  function Stored32(v: bv32): (b: seq<byte>)
    ensures |b| == 4
  {
    [(v & 0xFF) as byte, ((v >> 8) & 0xFF) as byte, ((v >> 16) & 0xFF) as byte, ((v >> 24) & 0xFF) as byte]
  }

  function Stored16(v: bv16): (b: seq<byte>)
    ensures |b| == 2
  {
    [(v & 0xFF) as byte, ((v >> 8) & 0xFF) as byte]
  }

  function Put(p: seq<byte>, at: nat, b: seq<byte>): (q: seq<byte>)
    requires at + |b| <= |p|
    ensures |q| == |p|
  {
    p[..at] + b + p[at + |b|..]
  }

  lemma WordOfStored(v: bv32)
    ensures Crc.Word(Stored32(v)) == v
  {
  }

  lemma StoredOfWord(b: seq<byte>)
    requires |b| == 4
    ensures Stored32(Crc.Word(b)) == b
  {
  }

  lemma Bswap32Twice(v: bv32)
    ensures Bswap32(Bswap32(v)) == v
  {
  }

  lemma WordOfReversed(a: seq<byte>, b: seq<byte>)
    requires |a| == 4 && b == [a[3], a[2], a[1], a[0]]
    ensures Crc.Word(b) == Bswap32(Crc.Word(a))
  {
  }

  // ---- validation ----

  /** The checksum flag of a packet in network order. */
  predicate Flagged(p: seq<byte>)
    requires |p| >= HEADER_SIZE
  {
    Load16(p, 14) & Bswap16(FLAG_CHECKSUMMED) != 0
  }

  function Validity(p: seq<byte>): PacketError {
    if |p| < HEADER_SIZE then PacketTooSmall
    else if Flagged(p) && Crc.Checksum(p[12..], 0) != Bswap32(Load32(p, 8)) then InvalidChecksum
    else if Load32(p, 0) != Bswap32(MAGIC) then InvalidMagic
    else NoError
  }

  method ValidatePacket(lookup: array2<bv32>, data: array<byte>, length: nat) returns (e: PacketError)
    requires Crc32.IsTable(lookup) && length <= data.Length
    ensures e == Validity(data[..length])
  {
    hide Bswap32;
    hide Bswap16;
    hide Load16;
    hide Load32;
    if length < HEADER_SIZE {
      return PacketTooSmall;
    }
    if Load16(data[..length], 14) & Bswap16(FLAG_CHECKSUMMED) != 0 {
      var crc := Crc32.Fast(lookup, data[..length][12..], 0);
      var packetCrc := Bswap32(Load32(data[..length], 8));
      if crc != packetCrc {
        return InvalidChecksum;
      }
    }
    if Load32(data[..length], 0) != Bswap32(MAGIC) {
      return InvalidMagic;
    }
    e := NoError;
  }

  /** A packet with its checksum field filled in, most significant byte first. */
  function Summed(p: seq<byte>): (q: seq<byte>)
    requires |p| >= HEADER_SIZE
    ensures |q| == |p|
  {
    Put(p, 8, Stored32(Bswap32(Crc.Checksum(p[12..], 0))))
  }

  method ApplyChecksum(lookup: array2<bv32>, data: array<byte>, length: nat) returns (e: PacketError)
    requires Crc32.IsTable(lookup) && length <= data.Length
    modifies data
    ensures length < HEADER_SIZE ==> e == PacketTooSmall && data[..] == old(data[..])
    ensures length >= HEADER_SIZE ==>
              e == NoError && data[..length] == Summed(old(data[..length])) && data[length..] == old(data[length..])
  {
    hide Bswap32;
    hide Stored32;
    if length < HEADER_SIZE {
      return PacketTooSmall;
    }
    var crc := Crc32.Fast(lookup, data[..length][12..], 0);
    Store32(data, 8, Bswap32(crc));
    e := NoError;
  }

  method Store32(data: array<byte>, at: nat, v: bv32)
    requires at + 4 <= data.Length
    modifies data
    ensures data[..] == Put(old(data[..]), at, Stored32(v))
  {
    var b := Stored32(v);
    hide Stored32;
    data[at], data[at + 1], data[at + 2], data[at + 3] := b[0], b[1], b[2], b[3];
  }

  method Store16(data: array<byte>, at: nat, v: bv16)
    requires at + 2 <= data.Length
    modifies data
    ensures data[..] == Put(old(data[..]), at, Stored16(v))
  {
    var b := Stored16(v);
    hide Stored16;
    data[at], data[at + 1] := b[0], b[1];
  }

  // ---- what the server sends is accepted ----

  lemma PutReads(p: seq<byte>, at: nat, b: seq<byte>, lo: nat, hi: nat)
    requires at + |b| <= |p| && lo <= hi <= |p|
    ensures lo == at && hi == at + |b| ==> Put(p, at, b)[lo..hi] == b
    ensures hi <= at || at + |b| <= lo ==> Put(p, at, b)[lo..hi] == p[lo..hi]
  {
  }

  /** Checksumming makes a packet valid as soon as its magic value is right. */
  lemma SummedValidates(p: seq<byte>)
    requires |p| >= HEADER_SIZE
    ensures Validity(Summed(p)) == if Load32(p, 0) == Bswap32(MAGIC) then NoError else InvalidMagic
  {
    var crc := Crc.Checksum(p[12..], 0);
    WordOfStored(Bswap32(crc));
    Bswap32Twice(crc);
    hide Bswap32;
    hide Stored32;
    hide Bswap16;
    PutReads(p, 8, Stored32(Bswap32(crc)), 8, 12);
    PutReads(p, 8, Stored32(Bswap32(crc)), 12, |p|);
    PutReads(p, 8, Stored32(Bswap32(crc)), 0, 4);
    hide Put;
    hide Crc.Word;
    hide Crc.Checksum;
    assert Summed(p)[12..] == Summed(p)[12..|p|] == p[12..];
  }

  /** What populateHeader leaves in a packet that is still in host order. */
  predicate Prepared(p: seq<byte>) {
    |p| >= HEADER_SIZE && Load32(p, 0) == MAGIC && Load16(p, 14) & FLAG_CHECKSUMMED != 0
  }

  /** The bytes that go out: network order first, checksum last. */
  function OnWire(p: seq<byte>): (w: seq<byte>)
    requires Holds(p, false, |p|)
    ensures |w| == |p|
  {
    Summed(Converted(p, false, |p|))
  }

  /** Every prepared packet is accepted, with its checksum flag set. */
  lemma PreparedValidates(p: seq<byte>)
    requires Prepared(p) && Holds(p, false, |p|)
    ensures Flagged(OnWire(p)) && Validity(OnWire(p)) == NoError
  {
    hide Bswap32;
    hide Stored32;
    var q := Converted(p, false, |p|);
    ConvertedMagic(p);
    ConvertedFlags(p);
    hide Converted;
    SummedValidates(q);
    SummedKeepsFlag(q);
  }

  lemma SummedKeepsFlag(q: seq<byte>)
    requires |q| >= HEADER_SIZE
    ensures Flagged(Summed(q)) == Flagged(q)
  {
    hide Stored32;
    hide Bswap16;
    hide Bswap32;
  }

  lemma ConvertedMagic(p: seq<byte>)
    requires Holds(p, false, |p|)
    ensures Load32(Converted(p, false, |p|), 0) == Bswap32(Load32(p, 0))
  {
    hide Bswap32;
    hide Crc.Word;
    hide SwapAll;
    var fields := ConvertedFields(p, false, |p|);
    var q := Converted(p, false, |p|);
    FieldsAreLaid(p, false, |p|);
    assert fields[0] == Field(0, 4);
    SwapAllInside(p, fields, 0, 0);
    SwapAllInside(p, fields, 0, 1);
    SwapAllInside(p, fields, 0, 2);
    SwapAllInside(p, fields, 0, 3);
    assert q[0..4] == [p[3], p[2], p[1], p[0]];
    WordOfReversed(p[0..4], q[0..4]);
  }

  lemma ConvertedFlags(p: seq<byte>)
    requires Holds(p, false, |p|)
    ensures Flagged(Converted(p, false, |p|)) <==> Load16(p, 14) & FLAG_CHECKSUMMED != 0
  {
    var fields := ConvertedFields(p, false, |p|);
    var q := Converted(p, false, |p|);
    assert q[15] == p[14] by {
      hide SwapAll;
      FieldsAreLaid(p, false, |p|);
      assert fields[4] == Field(14, 2);
      SwapAllInside(p, fields, 4, 15);
    }
    hide Converted;
    FlagBit(q[14], q[15]);
    HostFlagBit(p[14], p[15]);
  }

  lemma FlagBit(b0: byte, b1: byte)
    ensures ((b1 as bv16 << 8) | b0 as bv16) & Bswap16(FLAG_CHECKSUMMED) != 0 <==> b1 & 1 != 0
  {
  }

  lemma HostFlagBit(b0: byte, b1: byte)
    ensures ((b1 as bv16 << 8) | b0 as bv16) & FLAG_CHECKSUMMED != 0 <==> b0 & 1 != 0
  {
  }

  // ---- what damage is noticed ----

  /** A valid packet whose bytes behind the checksum field were damaged inside 28 consecutive bits
      is rejected, unless the damage cleared the flag that asks for the check or is the one pattern
      the register forgets. */
  lemma DamagedPayload(p: seq<byte>, q: seq<byte>, bit: nat)
    requires Validity(p) == NoError && Flagged(p)
    requires |q| == |p| && q[..12] == p[..12]
    requires CrcBurst.DifferWithin(p[12..], q[12..], bit, 28)
    ensures Validity(q) ==
            if Flagged(q) && p != q && !CrcBurst.DifferByBlind(p[12..], q[12..], bit) then InvalidChecksum else NoError
  {
    hide CrcBurst.DifferByBlind;
    hide CrcBurst.DifferWithin;
    hide Bswap32;
    hide Crc.Checksum;
    hide Crc.Word;
    hide Flagged;
    CrcBurst.BurstOf28(p[12..], q[12..], 0, bit);
    assert p == p[..12] + p[12..] && q == q[..12] + q[12..];
    assert p[8..12] == p[..12][8..12] && q[8..12] == q[..12][8..12];
    assert p[0..4] == p[..12][0..4] && q[0..4] == q[..12][0..4];
  }

  /** Damage to three consecutive bytes is noticed exactly when the flag survives it. */
  lemma DamagedThreeBytes(p: seq<byte>, q: seq<byte>, k: nat)
    requires Validity(p) == NoError && Flagged(p)
    requires |q| == |p| && p != q && k >= 12
    requires forall i :: 0 <= i < |p| && !(k <= i < k + 3) ==> q[i] == p[i]
    ensures Validity(q) == if Flagged(q) then InvalidChecksum else NoError
  {
    hide Bswap32;
    hide Crc.Checksum;
    hide Crc.Word;
    hide Flagged;
    assert p == p[..12] + p[12..] && q == q[..12] + q[12..];
    assert q[..12] == p[..12];
    CrcBurst.ThreeBytes(p[12..], q[12..], 0, k - 12);
    assert p[8..12] == p[..12][8..12] && q[8..12] == q[..12][8..12];
    assert p[0..4] == p[..12][0..4] && q[0..4] == q[..12][0..4];
  }

  /** Damage before the opcode: the checksum and the magic value are compared, the version is not. */
  lemma DamagedHeader(p: seq<byte>, q: seq<byte>)
    requires Validity(p) == NoError && Flagged(p)
    requires |q| == |p| && q[12..] == p[12..]
    ensures Validity(q) ==
            if q[8..12] != p[8..12] then InvalidChecksum
            else if q[0..4] != p[0..4] then InvalidMagic else NoError
  {
    assert p[12..][2] == p[14] && p[12..][3] == p[15] && q[12..][2] == q[14] && q[12..][3] == q[15];
    assert Flagged(q);
    hide Flagged;
    Bswap32Twice(Load32(p, 8));
    Bswap32Twice(Load32(q, 8));
    hide Bswap32;
    hide Crc.Checksum;
    StoredOfWord(p[8..12]);
    StoredOfWord(q[8..12]);
    StoredOfWord(p[0..4]);
    StoredOfWord(q[0..4]);
    hide Crc.Word;
    hide Stored32;
  }

  /** The checksum a packet carries. */
  function Carried(p: seq<byte>): bv32
    requires |p| >= HEADER_SIZE
  {
    Bswap32(Load32(p, 8))
  }

  /** What the damage behind the checksum field does to the register, which depends on nothing else. */
  function Disturbance(p: seq<byte>, q: seq<byte>): bv32
    requires |q| == |p| >= HEADER_SIZE
  {
    CrcBurst.AbsorbBits(0, CrcBurst.Difference(CrcBurst.Bits(p[12..]), CrcBurst.Bits(q[12..])))
  }

  lemma ChecksumsDiffer(a: seq<byte>, b: seq<byte>)
    requires |a| == |b|
    ensures Crc.Xor(Crc.Checksum(a, 0), Crc.Checksum(b, 0)) ==
            CrcBurst.AbsorbBits(0, CrcBurst.Difference(CrcBurst.Bits(a), CrcBurst.Bits(b)))
  {
    var start := Crc.Complement(0);
    XorOfComplements(Crc.Absorb(start, a), Crc.Absorb(start, b));
    CrcBurst.XorIsZero(start, start);
    CrcBurst.AbsorbAsBits(start, a);
    CrcBurst.AbsorbAsBits(start, b);
    CrcBurst.AbsorbDifference(start, start, CrcBurst.Bits(a), CrcBurst.Bits(b));
    hide Crc.Xor;
    hide Crc.Complement;
    hide CrcBurst.AbsorbBits;
    hide Crc.Absorb;
  }

  lemma XorOfComplements(a: bv32, b: bv32)
    ensures Crc.Xor(Crc.Complement(a), Crc.Complement(b)) == Crc.Xor(a, b)
  {
  }

  lemma SameXor(a: bv32, b: bv32, c: bv32)
    ensures b == c <==> Crc.Xor(a, b) == Crc.Xor(a, c)
  {
  }

  /** Any damage at all, also across the border of the checksum field: a flagged copy passes the check
      exactly when the damage disturbs the register by what it changed in the carried checksum. */
  lemma DamagedAnywhere(p: seq<byte>, q: seq<byte>)
    requires Validity(p) == NoError && Flagged(p) && |q| == |p|
    ensures Validity(q) ==
            if Flagged(q) && Disturbance(p, q) != Crc.Xor(Carried(p), Carried(q)) then InvalidChecksum
            else if Load32(q, 0) != Load32(p, 0) then InvalidMagic else NoError
  {
    hide Bswap32;
    hide Flagged;
    hide Crc.Checksum;
    hide Crc.Word;
    hide Crc.Xor;
    hide CrcBurst.AbsorbBits;
    hide CrcBurst.Bits;
    ChecksumsDiffer(p[12..], q[12..]);
    SameXor(Carried(p), Crc.Checksum(q[12..], 0), Carried(q));
  }

  /** End to end: the server's packet is accepted; a copy damaged in three consecutive bytes is not. */
  lemma EndToEnd(p: seq<byte>, q: seq<byte>, k: nat)
    requires Prepared(p) && Holds(p, false, |p|)
    requires |q| == |p| && q != OnWire(p) && k >= 12
    requires forall i :: 0 <= i < |p| && !(k <= i < k + 3) ==> q[i] == OnWire(p)[i]
    requires Flagged(q)
    ensures Validity(OnWire(p)) == NoError && Validity(q) == InvalidChecksum
  {
    hide OnWire;
    hide Flagged;
    hide Validity;
    PreparedValidates(p);
    DamagedThreeBytes(OnWire(p), q, k);
  }

  /** Converting does not look at the checksum field, and keeps everything else apart from it. */
  lemma ConvertedApart(w: seq<byte>, q: seq<byte>, fromNetwork: bool, length: nat)
    requires Holds(q, fromNetwork, length)
    requires |w| == |q| && forall k :: 0 <= k < |q| && !(8 <= k < 12) ==> w[k] == q[k]
    ensures Holds(w, fromNetwork, length)
    ensures ReturnCode(w, fromNetwork, length) == ReturnCode(q, fromNetwork, length)
    ensures ConvertedFields(w, fromNetwork, length) == ConvertedFields(q, fromNetwork, length)
  {
    assert w[12..14] == q[12..14] && w[24..28] == q[24..28];
    if |q| >= 40 {
      assert w[36..40] == q[36..40];
    }
    hide BigEndian;
    hide LittleEndian;
  }

  /** The receiver gets back every byte the sender filled in; only the checksum field is new. */
  lemma Delivered(p: seq<byte>)
    requires Holds(p, false, |p|)
    ensures var w := OnWire(p);
            && Holds(w, true, |p|)
            && ReturnCode(w, true, |p|) == ReturnCode(p, false, |p|)
            && forall k :: 0 <= k < |p| && !(8 <= k < 12) ==> Converted(w, true, |p|)[k] == p[k]
  {
    hide Stored32;
    hide Bswap32;
    var q, w := Converted(p, false, |p|), OnWire(p);
    RoundTrip(p, false, |p|);
    ConvertedApart(w, q, true, |p|);
    FieldsAreLaid(w, true, |p|);
    var fields := ConvertedFields(w, true, |p|);
    assert fields[2] == Field(8, 4);
    hide ConvertedFields;
    forall k | 0 <= k < |p| && !(8 <= k < 12)
      ensures SwapAll(w, fields)[k] == SwapAll(q, fields)[k]
    {
      if i :| 0 <= i < |fields| && fields[i].Covers(k) {
        SwapAllInside(w, fields, i, k);
        SwapAllInside(q, fields, i, k);
        assert i != 2;
      } else {
        SwapAllOutside(w, fields, k);
        SwapAllOutside(q, fields, k);
      }
    }
  }

  // ---- filling in a header ----

  /** The header as the protocol lays it out, in host order, followed by what was behind it. The flags
      keep their other bits, and so does the payload length. */
  function Populated(p: seq<byte>, opcode: bv16, txn: bv32): (q: seq<byte>)
    requires |p| >= HEADER_SIZE
    ensures |q| == |p|
  {
    Stored32(MAGIC) + Stored32(VERSION_10) + Stored32(0)
    + Stored16(opcode) + Stored16(Load16(p, 14) | FLAG_CHECKSUMMED)
    + Stored16(0) + Stored16(0)
    + Stored32(txn) + p[24..]
  }

  /** Each field reads back as what was filled in. */
  lemma PopulatedParts(p: seq<byte>, opcode: bv16, txn: bv32)
    requires |p| >= HEADER_SIZE
    ensures var q := Populated(p, opcode, txn);
            && q[0..4] == Stored32(MAGIC) && q[4..8] == Stored32(VERSION_10) && q[8..12] == Stored32(0)
            && q[12..14] == Stored16(opcode) && q[14..16] == Stored16(Load16(p, 14) | FLAG_CHECKSUMMED)
            && q[16..18] == q[18..20] == Stored16(0) && q[20..24] == Stored32(txn)
  {
    hide Stored32;
    hide Stored16;
    hide Load16;
  }

  method PopulateHeader(data: array<byte>, opcode: bv16, txn: bv32)
    requires data.Length >= HEADER_SIZE
    modifies data
    ensures data[..] == Populated(old(data[..]), opcode, txn)
  {
    hide Stored32;
    hide Stored16;
    hide Put;
    hide Load16;
    hide Populated;
    ghost var p := data[..];
    Store32(data, 0, MAGIC);
    Store32(data, 4, VERSION_10);
    Store16(data, 12, opcode);
    Store16(data, 16, 0);
    Store16(data, 18, 0);
    Store32(data, 20, txn);
    ghost var q := data[..];
    FlagsStayed(p, opcode, txn, q);
    Store16(data, 14, Load16(data[..], 14) | FLAG_CHECKSUMMED);
    Store32(data, 8, 0);
    FieldsAreLayout(p, opcode, txn, q, Stored16(Load16(p, 14) | FLAG_CHECKSUMMED));
  }

  /** The buffer before the flags are read back. */
  function BeforeFlags(p: seq<byte>, opcode: bv16, txn: bv32): (q: seq<byte>)
    requires |p| >= HEADER_SIZE
    ensures |q| == |p|
  {
    Put(Put(Put(Put(Put(Put(p, 0, Stored32(MAGIC)), 4, Stored32(VERSION_10)), 12, Stored16(opcode)), 16, Stored16(0)),
            18, Stored16(0)),
        20, Stored32(txn))
  }

  lemma FlagsStayed(p: seq<byte>, opcode: bv16, txn: bv32, q: seq<byte>)
    requires |p| >= HEADER_SIZE && q == BeforeFlags(p, opcode, txn)
    ensures Load16(q, 14) == Load16(p, 14)
  {
    hide Put;
    hide Load16;
    hide Stored32;
    hide Stored16;
    var p1 := Put(p, 0, Stored32(MAGIC));
    var p2 := Put(p1, 4, Stored32(VERSION_10));
    var p3 := Put(p2, 12, Stored16(opcode));
    var p4 := Put(p3, 16, Stored16(0));
    var p5 := Put(p4, 18, Stored16(0));
    FlagsKept(p, 0, Stored32(MAGIC));
    FlagsKept(p1, 4, Stored32(VERSION_10));
    FlagsKept(p2, 12, Stored16(opcode));
    FlagsKept(p3, 16, Stored16(0));
    FlagsKept(p4, 18, Stored16(0));
    FlagsKept(p5, 20, Stored32(txn));
  }

  lemma FlagsKept(p: seq<byte>, at: nat, b: seq<byte>)
    requires |p| >= HEADER_SIZE && at + |b| <= |p| && (at + |b| <= 14 || at >= 16)
    ensures Load16(Put(p, at, b), 14) == Load16(p, 14)
  {
  }

  lemma FieldsAreLayout(p: seq<byte>, opcode: bv16, txn: bv32, q: seq<byte>, flags: seq<byte>)
    requires |p| >= HEADER_SIZE && q == BeforeFlags(p, opcode, txn)
    requires flags == Stored16(Load16(p, 14) | FLAG_CHECKSUMMED)
    ensures Put(Put(q, 14, flags), 8, Stored32(0)) == Populated(p, opcode, txn)
  {
    hide Stored32;
    hide Stored16;
    hide Load16;
    hide Put;
    hide Populated;
    var p1 := Put(p, 0, Stored32(MAGIC));
    var p2 := Put(p1, 4, Stored32(VERSION_10));
    var p3 := Put(p2, 12, Stored16(opcode));
    var p4 := Put(p3, 16, Stored16(0));
    var p5 := Put(p4, 18, Stored16(0));
    var r := Put(Put(q, 14, flags), 8, Stored32(0));
    forall k | 0 <= k < |p|
      ensures r[k] == Populated(p, opcode, txn)[k]
    {
      PutAt(p, 0, Stored32(MAGIC), k);
      PutAt(p1, 4, Stored32(VERSION_10), k);
      PutAt(p2, 12, Stored16(opcode), k);
      PutAt(p3, 16, Stored16(0), k);
      PutAt(p4, 18, Stored16(0), k);
      PutAt(p5, 20, Stored32(txn), k);
      PutAt(q, 14, flags, k);
      PutAt(Put(q, 14, flags), 8, Stored32(0), k);
      LayoutAt(p, opcode, txn, k);
    }
  }

  lemma PutAt(p: seq<byte>, at: nat, b: seq<byte>, k: nat)
    requires at + |b| <= |p| && k < |p|
    ensures Put(p, at, b)[k] == if at <= k < at + |b| then b[k - at] else p[k]
  {
  }

  lemma LayoutAt(p: seq<byte>, opcode: bv16, txn: bv32, k: nat)
    requires |p| >= HEADER_SIZE && k < |p|
    ensures Populated(p, opcode, txn)[k] ==
            if k < 4 then Stored32(MAGIC)[k]
            else if k < 8 then Stored32(VERSION_10)[k - 4]
            else if k < 12 then Stored32(0)[k - 8]
            else if k < 14 then Stored16(opcode)[k - 12]
            else if k < 16 then Stored16(Load16(p, 14) | FLAG_CHECKSUMMED)[k - 14]
            else if k < 18 then Stored16(0)[k - 16]
            else if k < 20 then Stored16(0)[k - 18]
            else if k < 24 then Stored32(txn)[k - 20] else p[k]
  {
    hide Stored32;
    hide Stored16;
    hide Load16;
  }

  /** Populating prepares a packet, and so it stays whatever else is filled in. */
  lemma PopulatedIsPrepared(p: seq<byte>, opcode: bv16, txn: bv32, q: seq<byte>)
    requires |p| >= HEADER_SIZE && |q| == |p|
    requires q[0..4] == Populated(p, opcode, txn)[0..4] && q[14..16] == Populated(p, opcode, txn)[14..16]
    ensures Prepared(q)
  {
    hide Stored32;
    hide Stored16;
    hide Load16;
    hide Prepared;
    hide Populated;
    PopulatedParts(p, opcode, txn);
    PreparedBytes(q, Load16(p, 14));
  }

  lemma PreparedBytes(q: seq<byte>, was: bv16)
    requires |q| >= HEADER_SIZE
    requires q[0..4] == Stored32(MAGIC) && q[14..16] == Stored16(was | FLAG_CHECKSUMMED)
    ensures Prepared(q)
  {
    WordOfStored(MAGIC);
    hide Stored32;
    hide Crc.Word;
    hide Stored16;
    TwoOf(q, 14);
    StoredFlag(was, was | FLAG_CHECKSUMMED, q[14], q[15]);
  }

  lemma TwoOf(q: seq<byte>, at: nat)
    requires at + 2 <= |q|
    ensures q[at..at + 2] == [q[at], q[at + 1]]
  {
  }

  lemma StoredFlag(was: bv16, flags: bv16, b0: byte, b1: byte)
    requires flags == was | FLAG_CHECKSUMMED && [b0, b1] == Stored16(flags)
    ensures ((b1 as bv16 << 8) | b0 as bv16) & FLAG_CHECKSUMMED != 0
  {
  }
}
