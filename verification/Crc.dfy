/** The checksum's shift register: one bit step, its iterates, and the algebra over GF(2) that
    every table-driven form rests on. Facts about XOR are carried by the relation Sum. */
module Crc {
  import opened Bytes

  const POLYNOMIAL: bv32 := 0x04C11DB7

  /** One bit step. The register runs towards bit 0, while the constant is spelled with its
      x^26 coefficient at bit 26. */
  function Shift(crc: bv32): bv32 {
    if crc & 1 == 0 then crc >> 1 else (crc >> 1) ^ POLYNOMIAL
  }

  function Shifts(k: nat, crc: bv32): bv32 {
    if k == 0 then crc else Shifts(k - 1, Shift(crc))
  }

  function AbsorbByte(crc: bv32, b: byte): bv32 {
    Shifts(8, Xor(crc, b as bv32))
  }

  /** The register after a message. */
  function Absorb(crc: bv32, data: seq<byte>): bv32
    decreases |data|
  {
    if data == [] then crc else Absorb(AbsorbByte(crc, data[0]), data[1..])
  }

  /** The checksum of a message that continues one whose checksum was previous. */
  function Checksum(data: seq<byte>, previous: bv32): bv32 {
    Complement(Absorb(Complement(previous), data))
  }

  function Complement(crc: bv32): bv32 {
    !crc
  }

  function Xor(a: bv32, b: bv32): bv32 {
    a ^ b
  }

  predicate Sum(a: bv32, b: bv32, c: bv32) {
    Xor(a, b) == c
  }

  // ---- one bit step ----

  lemma LowBit(a: bv32)
    ensures a & 1 == 0 || a & 1 == 1
  {
  }

  /** The branch-free spelling in the checksum loop. */
  lemma BranchFree(crc: bv32)
    ensures (crc >> 1) ^ ((0 - (crc & 1)) & POLYNOMIAL) == Shift(crc)
  {
    LowBit(crc);
    if crc & 1 == 0 {} else {}
  }

  /** The multiplying spelling in the table generator. */
  lemma Multiplied(crc: bv32)
    ensures (crc >> 1) ^ ((crc & 1) * POLYNOMIAL) == Shift(crc)
  {
    LowBit(crc);
    if crc & 1 == 0 {} else {}
  }

  lemma XorHalves(a: bv32, b: bv32)
    ensures (a ^ b) >> 1 == (a >> 1) ^ (b >> 1)
    ensures (a ^ b) & 1 == (a & 1) ^ (b & 1)
  {
  }

  lemma XorRegroup(a: bv32, b: bv32, p: bv32)
    ensures (a ^ b) ^ p == a ^ (b ^ p) == (a ^ p) ^ b
    ensures a ^ b == (a ^ p) ^ (b ^ p)
  {
  }

  lemma ShiftSum(a: bv32, b: bv32, c: bv32)
    requires Sum(a, b, c)
    ensures Sum(Shift(a), Shift(b), Shift(c))
  {
    LowBit(a);
    LowBit(b);
    XorHalves(a, b);
    XorRegroup(a >> 1, b >> 1, POLYNOMIAL);
    if a & 1 == 0 {
      if b & 1 == 0 {} else {}
    } else {
      if b & 1 == 0 {} else {}
    }
  }

  lemma EvenShift(v: bv32)
    requires v & 0x8000_0000 == 0
    ensures Shift(v << 1) == v
  {
  }

  // ---- many bit steps ----

  /** The k-step register map is a homomorphism for XOR. */
  lemma {:induction false} ShiftsSum(k: nat, a: bv32, b: bv32, c: bv32)
    requires Sum(a, b, c)
    ensures Sum(Shifts(k, a), Shifts(k, b), Shifts(k, c))
  {
    if k > 0 {
      ShiftSum(a, b, c);
      ShiftsSum(k - 1, Shift(a), Shift(b), Shift(c));
    }
  }

  lemma {:induction false} ShiftsCompose(j: nat, k: nat, crc: bv32)
    ensures Shifts(j + k, crc) == Shifts(k, Shifts(j, crc))
  {
    if j > 0 {
      ShiftsCompose(j - 1, k, Shift(crc));
    }
  }

  lemma {:induction false} ShiftsZero(k: nat)
    ensures Shifts(k, 0) == 0
  {
    if k > 0 {
      assert Shift(0) == 0;
      ShiftsZero(k - 1);
    }
  }

  lemma {:induction false} AbsorbConcat(crc: bv32, a: seq<byte>, b: seq<byte>)
    ensures Absorb(crc, a + b) == Absorb(Absorb(crc, a), b)
    decreases |a|
  {
    if a == [] {
      assert a + b == b;
    } else {
      assert (a + b)[1..] == a[1..] + b;
      AbsorbConcat(AbsorbByte(crc, a[0]), a[1..], b);
    }
  }

  /** Checksums chain: a message can be summed in two parts. */
  lemma ChecksumConcat(a: seq<byte>, b: seq<byte>, previous: bv32)
    ensures Checksum(a + b, previous) == Checksum(b, Checksum(a, previous))
  {
    hide Absorb;
    hide Complement;
    var start := Complement(previous);
    AbsorbConcat(start, a, b);
    ComplementTwice(Absorb(start, a));
  }

  lemma ComplementTwice(a: bv32)
    ensures Complement(Complement(a)) == a
  {
  }

  // ---- four bytes at once ----

  lemma ZeroBit(k: nat, v: bv32, w: bv32)
    requires v & 0x8000_0000 == 0
    requires w == v << 1
    ensures Shifts(k + 1, w) == Shifts(k, v)
  {
    EvenShift(v);
  }

  /** Four steps that only meet zero bits move the register and nothing else. */
  lemma FourZeros(k: nat, x: bv32, w: bv32)
    requires x & 0xF000_0000 == 0
    requires w == x << 4
    ensures Shifts(k + 4, w) == Shifts(k, x)
  {
    hide Shifts;
    hide Shift;
    var x1 := x << 1;
    var x2 := x1 << 1;
    var x3 := x2 << 1;
    assert x1 & 0x8000_0000 == x2 & 0x8000_0000 == x3 & 0x8000_0000 == 0;
    assert w == x3 << 1;
    ZeroBit(k + 3, x3, w);
    ZeroBit(k + 2, x2, x3);
    ZeroBit(k + 1, x1, x2);
    ZeroBit(k, x, x1);
  }

  lemma EightZeros(k: nat, x: bv32, w: bv32)
    requires x & 0xFF00_0000 == 0
    requires w == x << 8
    ensures Shifts(k + 8, w) == Shifts(k, x)
  {
    hide Shifts;
    var y := x << 4;
    assert y & 0xF000_0000 == 0 && w == y << 4;
    FourZeros(k + 4, y, w);
    FourZeros(k, x, y);
  }

  /** A byte that enters after eight steps might as well have entered eight places higher. */
  lemma EnterEarlier(y: bv32, x: bv32, w: bv32, z: bv32)
    requires x & 0xFF00_0000 == 0
    requires w == x << 8 && Sum(y, w, z)
    ensures Sum(Shifts(8, y), x, Shifts(8, z))
  {
    hide Sum;
    assert Shifts(0, x) == x;
    hide Shifts;
    EightZeros(0, x, w);
    ShiftsSum(8, y, w, z);
  }

  /** Four bytes as the processor loads them, first byte lowest. */
  function Word(b: seq<byte>): bv32
    requires |b| == 4
  {
    Xor(Xor(Xor(b[0] as bv32, b[1] as bv32 << 8), b[2] as bv32 << 16), b[3] as bv32 << 24)
  }

  lemma EnterTwoEarlier(y: bv32, x: bv32, w: bv32, v: bv32, z: bv32)
    requires x & 0xFF00_0000 == 0 && w & 0xFF00_0000 == 0
    requires w == x << 8 && v == w << 8 && Sum(y, v, z)
    ensures Sum(Shifts(16, y), x, Shifts(16, z))
  {
    hide Sum;
    ShiftsCompose(8, 8, y);
    ShiftsCompose(8, 8, z);
    hide Shifts;
    EnterEarlier(y, w, v, z);
    EnterEarlier(Shifts(8, y), x, w, Shifts(8, z));
  }

  lemma EnterThreeEarlier(y: bv32, x: bv32, w: bv32, v: bv32, u: bv32, z: bv32)
    requires x & 0xFF00_0000 == 0 && w & 0xFF00_0000 == 0 && v & 0xFF00_0000 == 0
    requires w == x << 8 && v == w << 8 && u == v << 8 && Sum(y, u, z)
    ensures Sum(Shifts(24, y), x, Shifts(24, z))
  {
    hide Sum;
    ShiftsCompose(8, 16, y);
    ShiftsCompose(8, 16, z);
    hide Shifts;
    EnterEarlier(y, v, u, z);
    EnterTwoEarlier(Shifts(8, y), x, w, v, Shifts(8, z));
  }

  lemma AbsorbByteSum(crc: bv32, b: byte, x: bv32, z: bv32)
    requires x == b as bv32 && Sum(crc, x, z)
    ensures AbsorbByte(crc, b) == Shifts(8, z)
  {
    hide Shifts;
    hide Xor;
  }

  lemma AbsorbFour(crc: bv32, b: seq<byte>)
    requires |b| == 4
    ensures Absorb(crc, b) == AbsorbByte(AbsorbByte(AbsorbByte(AbsorbByte(crc, b[0]), b[1]), b[2]), b[3])
  {
    hide AbsorbByte;
    assert b[1..][1..] == b[2..] && b[2..][1..] == b[3..] && b[3..][1..] == [];
    var c1 := AbsorbByte(crc, b[0]);
    var c2 := AbsorbByte(c1, b[1]);
    var c3 := AbsorbByte(c2, b[2]);
    assert Absorb(crc, b) == Absorb(c1, b[1..]);
    assert Absorb(c1, b[1..]) == Absorb(c2, b[2..]);
    assert Absorb(c2, b[2..]) == Absorb(c3, b[3..]);
    assert Absorb(c3, b[3..]) == Absorb(AbsorbByte(c3, b[3]), []);
  }

  /** What it means for z to be the register crc with the word b XORed in, byte by byte. */
  predicate Mixed(crc: bv32, b: seq<byte>, z0: bv32, z1: bv32, z2: bv32, z: bv32)
    requires |b| == 4
  {
    && Sum(crc, b[0] as bv32, z0)
    && Sum(z0, b[1] as bv32 << 8, z1)
    && Sum(z1, b[2] as bv32 << 16, z2)
    && Sum(z2, b[3] as bv32 << 24, z)
  }

  lemma Mixes(crc: bv32, b: seq<byte>, z: bv32) returns (z0: bv32, z1: bv32, z2: bv32)
    requires |b| == 4 && Sum(crc, Word(b), z)
    ensures Mixed(crc, b, z0, z1, z2, z)
  {
    hide Xor;
    XorAssoc(crc, b[0] as bv32, b[1] as bv32 << 8, b[2] as bv32 << 16, b[3] as bv32 << 24);
    z0 := Xor(crc, b[0] as bv32);
    z1 := Xor(z0, b[1] as bv32 << 8);
    z2 := Xor(z1, b[2] as bv32 << 16);
  }

  lemma XorAssociates(a: bv32, b: bv32, c: bv32)
    ensures Xor(a, Xor(b, c)) == Xor(Xor(a, b), c)
  {
  }

  lemma XorCommutes(a: bv32, b: bv32)
    ensures Xor(a, b) == Xor(b, a)
  {
  }

  lemma XorAssoc(a: bv32, x0: bv32, x1: bv32, x2: bv32, x3: bv32)
    ensures Xor(a, Xor(Xor(Xor(x0, x1), x2), x3)) == Xor(Xor(Xor(Xor(a, x0), x1), x2), x3)
  {
    hide Xor;
    XorAssociates(a, Xor(Xor(x0, x1), x2), x3);
    XorAssociates(a, Xor(x0, x1), x2);
    XorAssociates(a, x0, x1);
  }

  lemma XorReverse(x0: bv32, x1: bv32, x2: bv32, x3: bv32)
    ensures Xor(Xor(Xor(x0, x1), x2), x3) == Xor(Xor(Xor(x3, x2), x1), x0)
  {
    hide Xor;
    XorCommutes(x0, x1);
    XorCommutes(Xor(x1, x0), x2);
    XorAssociates(x2, x1, x0);
    XorCommutes(Xor(Xor(x2, x1), x0), x3);
    XorAssociates(x3, Xor(x2, x1), x0);
    XorAssociates(x3, x2, x1);
  }

  lemma Places(b: byte, x: bv32, x1: bv32, x2: bv32, x3: bv32)
    requires x == b as bv32 && x1 == x << 8 && x2 == x << 16 && x3 == x << 24
    ensures x & 0xFF00_0000 == x1 & 0xFF00_0000 == x2 & 0xFF00_0000 == 0
    ensures x2 == x1 << 8 && x3 == x2 << 8
  {
  }

  /** A word enters the register as one value and is worked off in 32 steps. */
  lemma AbsorbWord(crc: bv32, b: seq<byte>, z: bv32)
    requires |b| == 4 && Sum(crc, Word(b), z)
    ensures Absorb(crc, b) == Shifts(32, z)
  {
    hide Sum;
    var z0, z1, z2 := Mixes(crc, b, z);
    hide Shifts;
    AbsorbFour(crc, b);
    AbsorbFirst(crc, b[0], z0, b[1], z1);
    AbsorbThird(z1, b[2], z2);
    AbsorbFourth(z2, b[3], z);
  }

  lemma AbsorbFirst(crc: bv32, b0: byte, z0: bv32, b1: byte, z1: bv32)
    requires Sum(crc, b0 as bv32, z0) && Sum(z0, b1 as bv32 << 8, z1)
    ensures AbsorbByte(AbsorbByte(crc, b0), b1) == Shifts(16, z1)
  {
    hide Shifts;
    var x := b1 as bv32;
    Places(b1, x, x << 8, x << 16, x << 24);
    AbsorbByteSum(crc, b0, b0 as bv32, z0);
    EnterEarlier(z0, x, x << 8, z1);
    AbsorbByteSum(Shifts(8, z0), b1, x, Shifts(8, z1));
    ShiftsCompose(8, 8, z1);
  }

  lemma AbsorbThird(z1: bv32, b2: byte, z2: bv32)
    requires Sum(z1, b2 as bv32 << 16, z2)
    ensures AbsorbByte(Shifts(16, z1), b2) == Shifts(24, z2)
  {
    hide Shifts;
    var x := b2 as bv32;
    var x1, x2 := x << 8, x << 16;
    Places(b2, x, x1, x2, x << 24);
    EnterTwoEarlier(z1, x, x1, x2, z2);
    AbsorbByteSum(Shifts(16, z1), b2, x, Shifts(16, z2));
    ShiftsCompose(16, 8, z2);
  }

  lemma AbsorbFourth(z2: bv32, b3: byte, z: bv32)
    requires Sum(z2, b3 as bv32 << 24, z)
    ensures AbsorbByte(Shifts(24, z2), b3) == Shifts(32, z)
  {
    hide Shifts;
    var x := b3 as bv32;
    var x1, x2, x3 := x << 8, x << 16, x << 24;
    Places(b3, x, x1, x2, x3);
    EnterThreeEarlier(z2, x, x1, x2, x3, z);
    AbsorbByteSum(Shifts(24, z2), b3, x, Shifts(24, z));
    ShiftsCompose(24, 8, z);
  }

  // ---- sixteen bytes at once ----

  /** What row s of the lookup table holds for a byte value. */
  function Row(s: nat, x: bv32): bv32 {
    Shifts(8 * (s + 1), x)
  }

  lemma Lanes(w: bv32, x0: bv32, x1: bv32, x2: bv32, x3: bv32, t2: bv32)
    requires x0 == w & 0xFF && x1 == (w >> 8) & 0xFF && x2 == (w >> 16) & 0xFF && x3 == (w >> 24) & 0xFF
    requires t2 == Xor(Xor(x0, x1 << 8), x2 << 16)
    ensures Sum(t2, x3 << 24, w)
    ensures x1 <= 0xFF && x2 <= 0xFF && x3 <= 0xFF
  {
  }

  /** Working off a word is looking each of its bytes up in its own row. */
  lemma WordRows(q: nat, w: bv32)
    ensures Shifts(8 * q + 32, w)
         == Xor(Xor(Xor(Row(q + 3, w & 0xFF), Row(q + 2, (w >> 8) & 0xFF)), Row(q + 1, (w >> 16) & 0xFF)),
                Row(q, (w >> 24) & 0xFF))
  {
    hide Xor;
    hide Row;
    var x0, x1, x2, x3 := w & 0xFF, (w >> 8) & 0xFF, (w >> 16) & 0xFF, (w >> 24) & 0xFF;
    var y1, y2, y3 := x1 << 8, x2 << 16, x3 << 24;
    var t1 := Xor(x0, y1);
    var t2 := Xor(t1, y2);
    Lanes(w, x0, x1, x2, x3, t2);
    RowsOfLanes(q, x0, x1, x2, x3, y1, y2, y3, t1, t2, w);
  }

  lemma RowsOfLanes(q: nat, x0: bv32, x1: bv32, x2: bv32, x3: bv32, y1: bv32, y2: bv32, y3: bv32,
                    t1: bv32, t2: bv32, w: bv32)
    requires x1 <= 0xFF && x2 <= 0xFF && x3 <= 0xFF
    requires y1 == x1 << 8 && y2 == x2 << 16 && y3 == x3 << 24
    requires Sum(x0, y1, t1) && Sum(t1, y2, t2) && Sum(t2, y3, w)
    ensures Shifts(8 * q + 32, w) == Xor(Xor(Xor(Row(q + 3, x0), Row(q + 2, x1)), Row(q + 1, x2)), Row(q, x3))
  {
    hide Shifts;
    hide Xor;
    ShiftsSum(8 * q + 32, x0, y1, t1);
    ShiftsSum(8 * q + 32, t1, y2, t2);
    ShiftsSum(8 * q + 32, t2, y3, w);
    DelayOne(8 * q + 24, x1, y1);
    DelayTwo(8 * q + 16, x2, y2);
    DelayThree(8 * q + 8, x3, y3);
  }

  lemma DelayOne(k: nat, x: bv32, w: bv32)
    requires x <= 0xFF && w == x << 8
    ensures Shifts(k + 8, w) == Shifts(k, x)
  {
    hide Shifts;
    assert x & 0xFF00_0000 == 0;
    EightZeros(k, x, w);
  }

  lemma DelayTwo(k: nat, x: bv32, w: bv32)
    requires x <= 0xFF && w == x << 16
    ensures Shifts(k + 16, w) == Shifts(k, x)
  {
    hide Shifts;
    var v := x << 8;
    assert v & 0xFF00_0000 == 0 && w == v << 8;
    EightZeros(k + 8, v, w);
    EightZeros(k, x, v);
  }

  lemma DelayThree(k: nat, x: bv32, w: bv32)
    requires x <= 0xFF && w == x << 24
    ensures Shifts(k + 24, w) == Shifts(k, x)
  {
    hide Shifts;
    var v := x << 16;
    assert v & 0xFF00_0000 == 0 && w == v << 8;
    EightZeros(k + 16, v, w);
    DelayTwo(k, x, v);
  }

  lemma {:induction false} StepWord(k: nat, crc: bv32, w: bv32, v: bv32)
    requires Sum(Shifts(32, crc), w, v)
    ensures Shifts(k, v) == Xor(Shifts(k + 32, crc), Shifts(k, w))
  {
    hide Xor;
    hide Shifts;
    ShiftsSum(k, Shifts(32, crc), w, v);
    ShiftsCompose(32, k, crc);
  }

  /** Sixteen bytes, as four words that wait 96, 64, 32 and 0 steps for their turn. */
  lemma AbsorbFourWords(crc: bv32, b: seq<byte>, one: bv32)
    requires |b| == 16 && Sum(crc, Word(b[0..4]), one)
    ensures Absorb(crc, b)
         == Xor(Xor(Xor(Shifts(128, one), Shifts(96, Word(b[4..8]))), Shifts(64, Word(b[8..12]))),
                 Shifts(32, Word(b[12..16])))
  {
    hide Xor;
    hide Shifts;
    hide Word;
    hide Absorb;
    var two, three, four := Word(b[4..8]), Word(b[8..12]), Word(b[12..16]);
    var v2 := Xor(Shifts(32, one), two);
    var v3 := Xor(Shifts(32, v2), three);
    var v4 := Xor(Shifts(32, v3), four);
    assert b == b[0..4] + b[4..8] + b[8..12] + b[12..16];
    AbsorbConcat(crc, b[0..4] + b[4..8] + b[8..12], b[12..16]);
    AbsorbConcat(crc, b[0..4] + b[4..8], b[8..12]);
    AbsorbConcat(crc, b[0..4], b[4..8]);
    AbsorbWord(crc, b[0..4], one);
    AbsorbWord(Shifts(32, one), b[4..8], v2);
    AbsorbWord(Shifts(32, v2), b[8..12], v3);
    AbsorbWord(Shifts(32, v3), b[12..16], v4);
    StepWord(96, one, two, v2);
    StepWord(64, v2, three, v3);
    StepWord(32, v3, four, v4);
  }

  /** The lookups of one word's bytes: its last byte in row q, its first in row q + 3. */
  function Rows(q: nat, w: bv32): bv32 {
    Xor(Xor(Xor(Row(q, (w >> 24) & 0xFF), Row(q + 1, (w >> 16) & 0xFF)), Row(q + 2, (w >> 8) & 0xFF)),
            Row(q + 3, w & 0xFF))
  }

  lemma RowsAre(q: nat, w: bv32)
    ensures Rows(q, w) == Shifts(8 * q + 32, w)
  {
    hide Row;
    hide Shifts;
    hide Xor;
    WordRows(q, w);
    XorReverse(Row(q + 3, w & 0xFF), Row(q + 2, (w >> 8) & 0xFF), Row(q + 1, (w >> 16) & 0xFF),
            Row(q, (w >> 24) & 0xFF));
  }

  /** The slicing step: sixteen lookups, one per byte and row, absorb sixteen bytes. */
  lemma SixteenRows(crc: bv32, b: seq<byte>, one: bv32, two: bv32, three: bv32, four: bv32)
    requires |b| == 16
    requires one == Xor(Word(b[0..4]), crc) && two == Word(b[4..8])
    requires three == Word(b[8..12]) && four == Word(b[12..16])
    ensures Xor(Xor(Xor(Rows(0, four), Rows(4, three)), Rows(8, two)), Rows(12, one)) == Absorb(crc, b)
  {
    hide Rows;
    hide Absorb;
    hide Word;
    hide Shifts;
    hide Xor;
    XorCommutes(Word(b[0..4]), crc);
    AbsorbFourWords(crc, b, one);
    RowsAre(0, four);
    RowsAre(4, three);
    RowsAre(8, two);
    RowsAre(12, one);
    XorReverse(Rows(0, four), Rows(4, three), Rows(8, two), Rows(12, one));
  }

  lemma LowByte(crc: bv32, h: bv32, hi: bv32, l: bv32)
    requires h == crc >> 8 && hi == h << 8 && l == crc & 0xFF
    ensures h & 0xFF00_0000 == 0 && Sum(hi, l, crc)
  {
  }

  /** Eight steps split into the three high bytes, which only move, and a lookup. */
  lemma EightSteps(crc: bv32)
    ensures Shifts(8, crc) == Xor(crc >> 8, Row(0, crc & 0xFF))
  {
    hide Xor;
    var h, l := crc >> 8, crc & 0xFF;
    var hi := h << 8;
    assert Shifts(0, h) == h;
    hide Shifts;
    LowByte(crc, h, hi, l);
    EightZeros(0, h, hi);
    ShiftsSum(8, hi, l, crc);
  }

  /** The classical table step: look the low byte up, move the other three down. */
  lemma OneRow(crc: bv32, b: byte)
    ensures Xor(crc >> 8, Row(0, Xor(crc & 0xFF, b as bv32))) == AbsorbByte(crc, b)
  {
    hide Shifts;
    var z := Xor(crc, b as bv32);
    EntersLow(crc, b, z);
    EightSteps(z);
  }

  lemma EntersLow(crc: bv32, b: byte, z: bv32)
    requires z == Xor(crc, b as bv32)
    ensures z >> 8 == crc >> 8 && z & 0xFF == Xor(crc & 0xFF, b as bv32)
  {
  }
}
