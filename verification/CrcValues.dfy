/** The checksum spelled out: its start value, its inversion, its bit step and the order of the bits are
    given by literals here, and by values worked out by hand. */
module CrcValues {
  import opened Bytes
  import opened Crc
  import opened CrcBurst
  import Crc32

  /** The register starts as the inverted previous checksum and is inverted at the end. */
  lemma ChecksumIs(data: seq<byte>, previous: bv32)
    ensures Checksum(data, previous) == AbsorbBits(previous ^ 0xFFFF_FFFF, Bits(data)) ^ 0xFFFF_FFFF
  {
    hide AbsorbBits;
    hide Absorb;
    hide Checksum;
    hide Bits;
    ChecksumFrom(data, previous, previous ^ 0xFFFF_FFFF);
    Inverted(AbsorbBits(previous ^ 0xFFFF_FFFF, Bits(data)));
  }

  lemma ChecksumFrom(data: seq<byte>, previous: bv32, start: bv32)
    requires Complement(previous) == start
    ensures Checksum(data, previous) == Complement(AbsorbBits(start, Bits(data)))
  {
    hide Complement;
    hide Absorb;
    hide AbsorbBits;
    hide Bits;
    AbsorbAsBits(start, data);
  }

  lemma Inverted(crc: bv32)
    ensures Complement(crc) == crc ^ 0xFFFF_FFFF
  {
  }

  /** A bit is added at the low end, the register moves down, and the constant is fed back if a one falls
      out. */
  lemma BitStepIs(crc: bv32, b: bool)
    ensures var mixed := crc ^ (if b then 1 else 0);
            AbsorbBit(crc, b) == (mixed >> 1) ^ if mixed & 1 == 1 then 0x04C1_1DB7 else 0
  {
    StepIs(Xor(crc, Bit(b)));
    hide Shift;
    if b {} else {}
  }

  lemma StepIs(mixed: bv32)
    ensures Shift(mixed) == (mixed >> 1) ^ if mixed & 1 == 1 then 0x04C1_1DB7 else 0
  {
    LowBit(mixed);
    NothingAdded(mixed >> 1);
    if mixed & 1 == 0 {} else {}
  }

  lemma NothingAdded(x: bv32)
    ensures x ^ 0 == x
  {
  }

  /** Bytes come first to last, and the bits of each low to high. */
  lemma BitsAre(data: seq<byte>, i: nat)
    requires i < |data|
    ensures var d := data[i];
            Bits(data)[8 * i..8 * i + 8] == [d & 1 != 0, d & 2 != 0, d & 4 != 0, d & 8 != 0,
                                             d & 16 != 0, d & 32 != 0, d & 64 != 0, d & 128 != 0]
  {
    hide Bits;
    hide LowBits;
    BitsAt(data, i);
    BitsOfByte(data[i]);
  }

  lemma BitsOfByte(d: byte)
    ensures LowBits(d as bv32, 8) == [d & 1 != 0, d & 2 != 0, d & 4 != 0, d & 8 != 0,
                                      d & 16 != 0, d & 32 != 0, d & 64 != 0, d & 128 != 0]
  {
    EightLowBits(d as bv32);
    OddHalves(d);
    hide Odd;
    hide Half;
  }

  lemma EightLowBits(x: bv32)
    ensures var x1 := Half(x);
            var x2 := Half(x1);
            var x3 := Half(x2);
            var x4 := Half(x3);
            var x5 := Half(x4);
            var x6 := Half(x5);
            LowBits(x, 8) == [Odd(x), Odd(x1), Odd(x2), Odd(x3), Odd(x4), Odd(x5), Odd(x6), Odd(Half(x6))]
  {
    hide Odd;
    hide Half;
    hide LowBits;
    var x4 := Half(Half(Half(Half(x))));
    FourMore(x, 8);
    FourMore(x4, 4);
    assert LowBits(Half(Half(Half(Half(x4)))), 0) == [];
  }

  lemma FourMore(x: bv32, n: nat)
    requires n >= 4
    ensures var x1 := Half(x);
            var x2 := Half(x1);
            var x3 := Half(x2);
            LowBits(x, n) == [Odd(x), Odd(x1), Odd(x2), Odd(x3)] + LowBits(Half(x3), n - 4)
  {
    hide Odd;
    hide Half;
    hide LowBits;
    TwoMore(x, n);
    TwoMore(Half(Half(x)), n - 2);
  }

  lemma TwoMore(x: bv32, n: nat)
    requires n >= 2
    ensures LowBits(x, n) == [Odd(x), Odd(Half(x))] + LowBits(Half(Half(x)), n - 2)
  {
    hide Odd;
    hide Half;
    assert LowBits(x, n) == [Odd(x)] + LowBits(Half(x), n - 1);
  }

  lemma OddHalves(d: byte)
    ensures var x := d as bv32;
            var x1 := Half(x);
            var x2 := Half(x1);
            var x3 := Half(x2);
            var x4 := Half(x3);
            var x5 := Half(x4);
            var x6 := Half(x5);
            && Odd(x) == (d & 1 != 0) && Odd(x1) == (d & 2 != 0) && Odd(x2) == (d & 4 != 0) && Odd(x3) == (d & 8 != 0)
            && Odd(x4) == (d & 16 != 0) && Odd(x5) == (d & 32 != 0) && Odd(x6) == (d & 64 != 0)
            && Odd(Half(x6)) == (d & 128 != 0)
  {
  }

  // ---- values ----

  lemma Steps(crc: bv32)
    ensures Shifts(8, crc) == Shift(Shift(Shift(Shift(Shift(Shift(Shift(Shift(crc))))))))
  {
    hide Shift;
    ShiftsFive(crc);
    ShiftsCompose(5, 3, crc);
    var five := Shifts(5, crc);
    assert Shifts(3, five) == Shifts(2, Shift(five)) == Shifts(1, Shift(Shift(five)));
  }

  lemma ByteTo(crc: bv32, b: byte, next: bv32)
    requires Shift(Shift(Shift(Shift(Shift(Shift(Shift(Shift(crc ^ b as bv32)))))))) == next
    ensures AbsorbByte(crc, b) == next
  {
    Steps(crc ^ b as bv32);
  }

  /** A zero byte, and the digits "12". */
  lemma KnownChecksums()
    ensures Checksum([0], 0) == 0xFA60_FB57
    ensures Checksum([49, 50], 0) == 0xFA0F_E1BA
  {
    ByteTo(0xFFFF_FFFF, 0, 0x059F_04A8);
    ByteTo(0xFFFF_FFFF, 49, 0x0144_9F52);
    ByteTo(0x0144_9F52, 50, 0x05F0_1E45);
    hide AbsorbByte;
    assert [49, 50][1..] == [50] && [50][1..] == [] && [0][1..] == [];
  }

  /** Entries of a generated table. */
  lemma KnownEntries(lookup: array2<bv32>)
    requires Crc32.IsTable(lookup)
    ensures lookup[0, 1] == 0x0623_3697 && lookup[0, 255] == 0x0560_FB57 && lookup[1, 1] == 0x0482_AD61
  {
    Steps(1);
    Steps(255);
    Steps(0x97);
    Crc32.NextRow(1, 1);
    hide Shifts;
    assert Crc32.Column(1) == 1 && Crc32.Column(255) == 255;
  }
}
