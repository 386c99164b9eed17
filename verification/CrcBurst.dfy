/** What the checksum detects. The constant's highest bit is bit 26, so the register keeps only 27
    bits once five steps have gone by; on 27-bit registers a step loses nothing. */
module CrcBurst {
  import opened Bytes
  import opened Crc

  /** The one non-zero 28-bit register that a single step clears: 2 * POLYNOMIAL + 1. */
  const BLIND: bv32 := 0x0982_3B6F

  // ---- registers of 27 bits ----

  predicate Narrow(crc: bv32) {
    crc & 0xF800_0000 == 0
  }

  lemma ShiftIsNarrow(crc: bv32)
    requires crc & 0xF000_0000 == 0
    ensures Narrow(Shift(crc))
  {
  }

  lemma ShiftFromZero(crc: bv32)
    requires crc & 0xF000_0000 == 0
    ensures Shift(crc) == 0 <==> crc == 0 || crc == BLIND
  {
  }

  lemma {:induction false} NarrowSurvives(k: nat, crc: bv32)
    requires Narrow(crc)
    ensures Narrow(Shifts(k, crc))
    ensures Shifts(k, crc) == 0 <==> crc == 0
  {
    if k == 0 {
    } else {
      NarrowStep(crc);
      NarrowSurvives(k - 1, Shift(crc));
    }
  }

  lemma NarrowStep(crc: bv32)
    requires Narrow(crc)
    ensures Narrow(Shift(crc)) && (Shift(crc) == 0 <==> crc == 0)
  {
  }

  lemma WidthStep(crc: bv32)
    ensures Narrow(Shift(Shift(Shift(Shift(Shift(crc))))))
  {
    var c1 := Shift(crc);
    assert c1 & 0x8000_0000 == 0;
    var c2 := Shift(c1);
    assert c2 & 0xC000_0000 == 0;
    var c3 := Shift(c2);
    assert c3 & 0xE000_0000 == 0;
    var c4 := Shift(c3);
    assert c4 & 0xF000_0000 == 0;
  }

  /** After any byte the register has 27 bits, so every checksum of a non-empty message has its top
      five bits set and at most 2^27 different values occur. */
  lemma {:induction false} ChecksumTopBits(data: seq<byte>, previous: bv32)
    requires data != []
    ensures Checksum(data, previous) & 0xF800_0000 == 0xF800_0000
  {
    AbsorbIsNarrow(Complement(previous), data);
    ComplementOfNarrow(Absorb(Complement(previous), data));
  }

  lemma ComplementOfNarrow(crc: bv32)
    requires Narrow(crc)
    ensures Complement(crc) & 0xF800_0000 == 0xF800_0000
  {
  }

  lemma {:induction false} AbsorbIsNarrow(crc: bv32, data: seq<byte>)
    requires data != []
    ensures Narrow(Absorb(crc, data))
    decreases |data|
  {
    ByteIsNarrow(crc, data[0]);
    hide AbsorbByte;
    hide Narrow;
    if |data| > 1 {
      AbsorbIsNarrow(AbsorbByte(crc, data[0]), data[1..]);
    }
  }

  lemma ByteIsNarrow(crc: bv32, b: byte)
    ensures Narrow(AbsorbByte(crc, b))
  {
    hide Shift;
    hide Xor;
    hide Narrow;
    var z := Xor(crc, b as bv32);
    WidthStep(z);
    assert Shifts(5, z) == Shift(Shift(Shift(Shift(Shift(z))))) by { ShiftsFive(z); }
    ShiftsCompose(5, 3, z);
    NarrowSurvives(3, Shifts(5, z));
  }

  lemma ShiftsFive(z: bv32)
    ensures Shifts(5, z) == Shift(Shift(Shift(Shift(Shift(z)))))
  {
    hide Shift;
    var z2 := Shift(Shift(z));
    var z4 := Shift(Shift(z2));
    assert Shifts(5, z) == Shifts(4, Shift(z)) == Shifts(3, z2);
    assert Shifts(3, z2) == Shifts(2, Shift(z2)) == Shifts(1, z4);
    assert Shifts(1, z4) == Shifts(0, Shift(z4)) == Shift(z4);
  }

  // ---- messages as bits, first sent first ----

  function Bit(b: bool): bv32 {
    if b then 1 else 0
  }

  function AbsorbBit(crc: bv32, b: bool): bv32 {
    Shift(Xor(crc, Bit(b)))
  }

  function AbsorbBits(crc: bv32, bits: seq<bool>): bv32
    decreases |bits|
  {
    if bits == [] then crc else AbsorbBits(AbsorbBit(crc, bits[0]), bits[1..])
  }

  function Odd(x: bv32): bool {
    x & 1 == 1
  }

  function Half(x: bv32): bv32 {
    x >> 1
  }

  function Double(x: bv32): bv32 {
    x << 1
  }

  /** The n low bits of x, lowest first. */
  function LowBits(x: bv32, n: nat): (bits: seq<bool>)
    ensures |bits| == n
  {
    if n == 0 then [] else [Odd(x)] + LowBits(Half(x), n - 1)
  }

  function Value(bits: seq<bool>): bv32
    decreases |bits|
  {
    if bits == [] then 0 else Xor(Double(Value(bits[1..])), Bit(bits[0]))
  }

  /** x has no bit beyond its n lowest. */
  predicate Fits(x: bv32, n: nat) {
    if n == 0 then x == 0 else Fits(Half(x), n - 1)
  }

  function Bits(data: seq<byte>): (bits: seq<bool>)
    ensures |bits| == 8 * |data|
    decreases |data|
  {
    if data == [] then [] else LowBits(data[0] as bv32, 8) + Bits(data[1..])
  }

  /** The bits of a message in place: bit k of byte i is bit 8 * i + k. */
  lemma {:induction false} BitsAt(data: seq<byte>, i: nat)
    requires i < |data|
    ensures Bits(data)[8 * i..8 * i + 8] == LowBits(data[i] as bv32, 8)
    decreases |data|
  {
    hide LowBits;
    var head, tail := LowBits(data[0] as bv32, 8), Bits(data[1..]);
    if i == 0 {
      assert (head + tail)[0..8] == head;
    } else {
      BitsAt(data[1..], i - 1);
      assert (head + tail)[8 * i..8 * i + 8] == tail[8 * (i - 1)..8 * (i - 1) + 8];
    }
  }

  lemma {:induction false} FitsMore(x: bv32, n: nat, m: nat)
    requires Fits(x, n) && n <= m
    ensures Fits(x, m)
    decreases m
  {
    if n == 0 {
      if m > 0 {
        assert Half(0) == 0;
        FitsMore(0, 0, m - 1);
      }
    } else {
      hide Half;
      FitsMore(Half(x), n - 1, m - 1);
    }
  }

  function Nibble(x: bv32): bv32 {
    x >> 4
  }

  lemma HalfFourTimes(x: bv32)
    ensures Half(Half(Half(Half(x)))) == Nibble(x)
  {
  }

  lemma FitsFour(x: bv32, n: nat)
    ensures Fits(x, n + 4) <==> Fits(Nibble(x), n)
  {
    hide Half;
    hide Nibble;
    HalfFourTimes(x);
    var x2 := Half(Half(x));
    assert Fits(x, n + 4) == Fits(Half(x), n + 3) == Fits(x2, n + 2) == Fits(Half(x2), n + 1)
        == Fits(Half(Half(x2)), n);
  }

  lemma FitsIn28(x: bv32)
    requires Fits(x, 28)
    ensures x & 0xF000_0000 == 0
  {
    SevenNibbles(x);
    hide Nibble;
    var x2 := Nibble(Nibble(x));
    var x4 := Nibble(Nibble(x2));
    var x6 := Nibble(Nibble(x4));
    hide Fits;
    FitsFour(x, 24);
    FitsFour(Nibble(x), 20);
    FitsFour(x2, 16);
    FitsFour(Nibble(x2), 12);
    FitsFour(x4, 8);
    FitsFour(Nibble(x4), 4);
    FitsFour(x6, 0);
    FitsNone(Nibble(x6));
  }

  lemma SevenNibbles(x: bv32)
    ensures Nibble(Nibble(Nibble(Nibble(Nibble(Nibble(Nibble(x))))))) == 0 ==> x & 0xF000_0000 == 0
  {
  }

  lemma FitsNone(x: bv32)
    requires Fits(x, 0)
    ensures x == 0
  {
  }

  lemma FitsTop(x: bv32, n: nat)
    requires Fits(x, n) && n <= 28
    ensures x & 0xF000_0000 == 0
    ensures n < 28 ==> Narrow(x)
  {
    hide Fits;
    hide Narrow;
    FitsMore(x, n, 28);
    FitsIn28(x);
    if n < 28 {
      FitsMore(x, n, 27);
      HalfOfDouble(x);
      FitsDouble(Double(x), x);
      FitsIn28(Double(x));
      NarrowFromDouble(x);
    }
  }

  lemma HalfOfDouble(x: bv32)
    requires x & 0xF000_0000 == 0
    ensures Half(Double(x)) == x
  {
  }

  lemma FitsDouble(y: bv32, x: bv32)
    requires Fits(x, 27) && Half(y) == x
    ensures Fits(y, 28)
  {
    hide Half;
  }

  lemma NarrowFromDouble(x: bv32)
    requires x & 0xF000_0000 == 0 && Double(x) & 0xF000_0000 == 0
    ensures Narrow(x)
  {
  }

  lemma HalfAndBit(x: bv32)
    ensures Xor(Double(Half(x)), Bit(Odd(x))) == x
  {
    LowBit(x);
  }

  lemma {:induction false} ValueOfLowBits(x: bv32, n: nat)
    requires Fits(x, n)
    ensures Value(LowBits(x, n)) == x
  {
    if n > 0 {
      hide Xor;
      hide Half;
      hide Double;
      hide Odd;
      hide Bit;
      ValueOfLowBits(Half(x), n - 1);
      HalfAndBit(x);
      assert LowBits(x, n)[1..] == LowBits(Half(x), n - 1);
    }
  }

  lemma DoubleAndBit(v: bv32, b: bool, x: bv32)
    requires v & 0x8000_0000 == 0 && x == Xor(v << 1, Bit(b))
    ensures Half(x) == v && (Odd(x) <==> b)
  {
  }

  lemma ValueSplits(v: bv32, b: bool, x: bv32)
    requires v & 0xF000_0000 == 0 && x == Xor(Double(v), Bit(b))
    ensures Half(x) == v && (Odd(x) <==> b)
  {
    assert v & 0x8000_0000 == 0;
    hide Xor;
    hide Bit;
    DoubleAndBit(v, b, x);
  }

  lemma {:induction false} LowBitsOfValue(bits: seq<bool>)
    requires |bits| <= 28
    ensures Fits(Value(bits), |bits|)
    ensures LowBits(Value(bits), |bits|) == bits
    decreases |bits|
  {
    if bits != [] {
      hide Xor;
      hide Half;
      hide Double;
      hide Odd;
      hide Bit;
      LowBitsOfValue(bits[1..]);
      FitsTop(Value(bits[1..]), |bits| - 1);
      ValueSplits(Value(bits[1..]), bits[0], Value(bits));
    }
  }

  /** Feeding bits one by one is feeding their value at once. */
  lemma {:induction false} AbsorbValue(crc: bv32, bits: seq<bool>)
    requires |bits| <= 28
    ensures AbsorbBits(crc, bits) == Shifts(|bits|, Xor(crc, Value(bits)))
    decreases |bits|
  {
    hide Shift;
    hide Xor;
    hide Bit;
    hide Double;
    hide AbsorbBit;
    if bits == [] {
      XorZero(crc);
    } else {
      var rest := bits[1..];
      AbsorbValue(AbsorbBit(crc, bits[0]), rest);
      LowBitsOfValue(rest);
      FitsTop(Value(rest), |rest|);
      BitThenValue(crc, bits[0], Value(rest));
    }
  }

  lemma XorZero(a: bv32)
    ensures Xor(a, 0) == a == Xor(0, a)
  {
  }

  lemma ShiftOfDouble(v: bv32)
    requires v & 0xF000_0000 == 0
    ensures Shift(Double(v)) == v
  {
  }

  lemma BitThenValue(crc: bv32, b: bool, v: bv32)
    requires v & 0xF000_0000 == 0
    ensures Shift(Xor(crc, Xor(Double(v), Bit(b)))) == Xor(AbsorbBit(crc, b), v)
  {
    hide Xor;
    hide Bit;
    hide Shift;
    hide Double;
    ShiftOfDouble(v);
    var w, x := Double(v), Bit(b);
    XorCommutes(w, x);
    XorAssociates(crc, x, w);
    ShiftSum(Xor(crc, x), w, Xor(crc, Xor(x, w)));
  }

  lemma {:induction false} AbsorbBitsConcat(crc: bv32, u: seq<bool>, v: seq<bool>)
    ensures AbsorbBits(crc, u + v) == AbsorbBits(AbsorbBits(crc, u), v)
    decreases |u|
  {
    hide AbsorbBit;
    if u == [] {
      assert u + v == v;
    } else {
      assert (u + v)[1..] == u[1..] + v;
      AbsorbBitsConcat(AbsorbBit(crc, u[0]), u[1..], v);
    }
  }

  lemma ByteFits(b: byte)
    ensures Fits(b as bv32, 8)
  {
    var x := b as bv32;
    assert Nibble(Nibble(x)) == 0;
    FitsFour(Nibble(x), 0);
    FitsFour(x, 4);
  }

  lemma AbsorbByteAsBits(crc: bv32, b: byte)
    ensures AbsorbByte(crc, b) == AbsorbBits(crc, LowBits(b as bv32, 8))
  {
    hide Shifts;
    hide Xor;
    hide AbsorbBits;
    hide LowBits;
    ByteFits(b);
    hide Fits;
    ValueOfLowBits(b as bv32, 8);
    hide Value;
    AbsorbValue(crc, LowBits(b as bv32, 8));
  }

  /** The byte-wise checksum is the bit-serial one over the message's bits. */
  lemma {:induction false} AbsorbAsBits(crc: bv32, data: seq<byte>)
    ensures Absorb(crc, data) == AbsorbBits(crc, Bits(data))
    decreases |data|
  {
    hide AbsorbByte;
    hide LowBits;
    hide AbsorbBit;
    if data != [] {
      AbsorbByteAsBits(crc, data[0]);
      AbsorbBitsConcat(crc, LowBits(data[0] as bv32, 8), Bits(data[1..]));
      AbsorbAsBits(AbsorbByte(crc, data[0]), data[1..]);
    }
  }

  function Difference(u: seq<bool>, v: seq<bool>): (d: seq<bool>)
    requires |u| == |v|
    ensures |d| == |u| && forall i :: 0 <= i < |d| ==> (d[i] <==> u[i] != v[i])
  {
    seq(|u|, i requires 0 <= i < |u| => u[i] != v[i])
  }

  lemma XorOfXors(c1: bv32, c2: bv32, a: bool, b: bool)
    ensures Xor(Xor(c1, Bit(a)), Xor(c2, Bit(b))) == Xor(Xor(c1, c2), Bit(a != b))
  {
    assert Bit(a) ^ Bit(b) == Bit(a != b);
    hide Bit;
    XorAssociates(Xor(c1, Bit(a)), c2, Bit(b));
    XorAssociates(c1, Bit(a), c2);
    XorCommutes(Bit(a), c2);
    XorAssociates(c1, c2, Bit(a));
    XorAssociates(Xor(c1, c2), Bit(a), Bit(b));
    assert Xor(Bit(a), Bit(b)) == Bit(a != b);
  }

  /** What two runs of the register differ by depends on the bits they differ by alone. */
  lemma {:induction false} AbsorbDifference(c1: bv32, c2: bv32, u: seq<bool>, v: seq<bool>)
    requires |u| == |v|
    ensures Xor(AbsorbBits(c1, u), AbsorbBits(c2, v)) == AbsorbBits(Xor(c1, c2), Difference(u, v))
    decreases |u|
  {
    hide Xor;
    hide Shift;
    hide Bit;
    if u != [] {
      XorOfXors(c1, c2, u[0], v[0]);
      ShiftSum(Xor(c1, Bit(u[0])), Xor(c2, Bit(v[0])), Xor(Xor(c1, c2), Bit(u[0] != v[0])));
      AbsorbDifference(AbsorbBit(c1, u[0]), AbsorbBit(c2, v[0]), u[1..], v[1..]);
      assert Difference(u, v)[1..] == Difference(u[1..], v[1..]);
    }
  }

  function Zeros(n: nat): (z: seq<bool>)
    ensures |z| == n && forall i :: 0 <= i < n ==> !z[i]
  {
    seq(n, i => false)
  }

  lemma {:induction false} AbsorbZeros(crc: bv32, n: nat)
    ensures AbsorbBits(crc, Zeros(n)) == Shifts(n, crc)
    decreases n
  {
    hide Shift;
    hide Xor;
    if n > 0 {
      XorZero(crc);
      assert Bit(false) == 0;
      assert Zeros(n)[1..] == Zeros(n - 1);
      AbsorbZeros(Shift(crc), n - 1);
    }
  }

  /** Of the non-zero 28-bit differences, every number of steps forgets exactly one. */
  lemma BlindOnly(k: nat, v: bv32)
    requires v & 0xF000_0000 == 0 && k >= 1
    ensures Shifts(k, v) == 0 <==> v == 0 || v == BLIND
  {
    ShiftIsNarrow(v);
    ShiftFromZero(v);
    hide Shift;
    assert Shifts(k, v) == Shifts(k - 1, Shift(v));
    hide Shifts;
    NarrowSurvives(k - 1, Shift(v));
  }

  lemma XorIsZero(a: bv32, b: bv32)
    ensures Xor(a, b) == 0 <==> a == b
  {
  }

  lemma ValueIsZero(w: seq<bool>)
    requires |w| <= 28
    ensures Value(w) == 0 <==> w == Zeros(|w|)
  {
    LowBitsOfValue(w);
    ValueOfZeros(|w|);
    LowBitsOfZero(|w|);
  }

  lemma {:induction false} ValueOfZeros(n: nat)
    ensures Value(Zeros(n)) == 0
  {
    if n > 0 {
      ValueOfZeros(n - 1);
      assert Zeros(n)[1..] == Zeros(n - 1);
      assert Double(0) == 0 && Bit(false) == 0 && Xor(0, 0) == 0;
    }
  }

  lemma {:induction false} LowBitsOfZero(n: nat)
    ensures LowBits(0, n) == Zeros(n)
  {
    if n > 0 {
      assert Half(0) == 0 && !Odd(0);
      LowBitsOfZero(n - 1);
    }
  }

  lemma BlindFits()
    ensures Fits(BLIND, 28) && !Narrow(BLIND)
  {
    FitsFour(0x09, 0);
    FitsFour(0x98, 4);
    FitsFour(0x982, 8);
    FitsFour(0x9823, 12);
    FitsFour(0x9_823B, 16);
    FitsFour(0x98_23B6, 20);
    FitsFour(BLIND, 24);
  }

  lemma ValueIsBlind(w: seq<bool>)
    requires |w| <= 28
    ensures Value(w) == BLIND <==> w == LowBits(BLIND, 28)
  {
    BlindFits();
    hide Fits;
    hide Narrow;
    hide LowBits;
    hide Value;
    LowBitsOfValue(w);
    FitsTop(Value(w), |w|);
    ValueOfLowBits(BLIND, 28);
  }

  // ---- which damage goes unnoticed ----

  /** Equal length, and no bit outside the n bits from bit p on differs. */
  ghost predicate DifferWithin(a: seq<byte>, b: seq<byte>, p: nat, n: nat) {
    && |a| == |b|
    && forall i :: 0 <= i < 8 * |a| && !(p <= i < p + n) ==> Bits(a)[i] == Bits(b)[i]
  }

  /** The bits that differ are exactly the bits of BLIND, lowest at bit p. */
  ghost predicate DifferByBlind(a: seq<byte>, b: seq<byte>, p: nat)
    requires |a| == |b|
  {
    && p + 28 <= 8 * |a|
    && Difference(Bits(a), Bits(b))[p..p + 28] == LowBits(BLIND, 28)
  }

  /** Damage inside 28 consecutive bits changes the checksum unless it flips exactly the pattern BLIND. */
  lemma BurstOf28(a: seq<byte>, b: seq<byte>, previous: bv32, p: nat)
    requires DifferWithin(a, b, p, 28)
    ensures Checksum(a, previous) == Checksum(b, previous) <==> a == b || DifferByBlind(a, b, p)
  {
    hide Absorb;
    hide Complement;
    hide Bits;
    hide Difference;
    var crc := Complement(previous);
    ComplementTwice(Absorb(crc, a));
    ComplementTwice(Absorb(crc, b));
    BitsDetermine(a, b);
    if p < 8 * |a| {
      WindowValue(crc, a, b, p);
      var w := Window(a, b, p);
      XorIsZero(Absorb(crc, a), Absorb(crc, b));
      BlindOnly(8 * |a| - p, Value(w));
      ValueIsZero(w);
      ValueIsBlind(w);
      WindowOfEqual(a, b, p);
    } else {
      assert Bits(a) == Bits(b);
    }
  }

  /** The part of the difference that falls inside 28 bits from bit p. */
  function Window(a: seq<byte>, b: seq<byte>, p: nat): (w: seq<bool>)
    requires |a| == |b| && p < 8 * |a|
    ensures |w| <= 28
  {
    var n := 8 * |a|;
    Difference(Bits(a), Bits(b))[p..if p + 28 <= n then p + 28 else n]
  }

  lemma WindowOfEqual(a: seq<byte>, b: seq<byte>, p: nat)
    requires DifferWithin(a, b, p, 28) && p < 8 * |a|
    ensures Window(a, b, p) == Zeros(|Window(a, b, p)|) <==> Bits(a) == Bits(b)
    ensures Window(a, b, p) == LowBits(BLIND, 28) <==> DifferByBlind(a, b, p)
  {
    hide Bits;
    hide LowBits;
    var d, w := Difference(Bits(a), Bits(b)), Window(a, b, p);
    if w == Zeros(|w|) {
      forall i | 0 <= i < 8 * |a|
        ensures Bits(a)[i] == Bits(b)[i]
      {
        if p <= i < p + 28 {
          assert !d[i] by { assert w[i - p] == d[i]; }
        }
      }
    }
  }

  lemma WindowValue(crc: bv32, a: seq<byte>, b: seq<byte>, p: nat)
    requires DifferWithin(a, b, p, 28) && p < 8 * |a|
    ensures Value(Window(a, b, p)) & 0xF000_0000 == 0
    ensures Xor(Absorb(crc, a), Absorb(crc, b)) == Shifts(8 * |a| - p, Value(Window(a, b, p)))
  {
    hide Absorb;
    hide AbsorbBits;
    hide Shifts;
    hide Value;
    hide Fits;
    hide LowBits;
    hide Xor;
    hide Bits;
    var d, w := Difference(Bits(a), Bits(b)), Window(a, b, p);
    var r := |d| - p - |w|;
    assert d == Zeros(p) + w + Zeros(r);
    AbsorbAsBits(crc, a);
    AbsorbAsBits(crc, b);
    AbsorbDifference(crc, crc, Bits(a), Bits(b));
    XorIsZero(crc, crc);
    AbsorbBitsConcat(0, Zeros(p) + w, Zeros(r));
    AbsorbBitsConcat(0, Zeros(p), w);
    AbsorbZeros(0, p);
    ShiftsZero(p);
    AbsorbValue(0, w);
    XorZero(Value(w));
    AbsorbZeros(Shifts(|w|, Value(w)), r);
    ShiftsCompose(|w|, r, Value(w));
    LowBitsOfValue(w);
    FitsTop(Value(w), |w|);
  }

  lemma {:induction false} BitsDetermine(a: seq<byte>, b: seq<byte>)
    requires |a| == |b|
    ensures Bits(a) == Bits(b) <==> a == b
    decreases |a|
  {
    hide LowBits;
    if a != [] && Bits(a) == Bits(b) {
      var x, y := LowBits(a[0] as bv32, 8), LowBits(b[0] as bv32, 8);
      assert x == Bits(a)[..8] && Bits(a[1..]) == Bits(a)[8..];
      assert y == Bits(b)[..8] && Bits(b[1..]) == Bits(b)[8..];
      SameByte(a[0], b[0]);
      BitsDetermine(a[1..], b[1..]);
      assert a == [a[0]] + a[1..] && b == [b[0]] + b[1..];
    }
  }

  lemma SameByte(x: byte, y: byte)
    requires LowBits(x as bv32, 8) == LowBits(y as bv32, 8)
    ensures x == y
  {
    hide LowBits;
    hide Fits;
    ByteFits(x);
    ByteFits(y);
    ValueOfLowBits(x as bv32, 8);
    ValueOfLowBits(y as bv32, 8);
    Widened(x, y);
  }

  lemma Widened(x: byte, y: byte)
    ensures x as bv32 == y as bv32 ==> x == y
  {
  }

  /** Every burst of at most 27 bits is detected. */
  lemma BurstOf27(a: seq<byte>, b: seq<byte>, previous: bv32, p: nat)
    requires DifferWithin(a, b, p, 27) && a != b
    ensures Checksum(a, previous) != Checksum(b, previous)
  {
    hide Bits;
    hide Checksum;
    BurstOf28(a, b, previous, p);
    if DifferByBlind(a, b, p) {
      assert Difference(Bits(a), Bits(b))[p..p + 28][27] == Difference(Bits(a), Bits(b))[p + 27];
      BlindEnds();
      assert false;
    }
  }

  lemma LowBitsSkipFour(x: bv32, n: nat)
    ensures LowBits(x, n + 4)[4..] == LowBits(Nibble(x), n)
  {
    hide Half;
    hide Odd;
    hide Nibble;
    HalfFourTimes(x);
    var x1 := Half(x);
    var x2 := Half(x1);
    var x3 := Half(x2);
    assert LowBits(x, n + 4) == [Odd(x)] + ([Odd(x1)] + LowBits(x2, n + 2));
    assert LowBits(x2, n + 2) == [Odd(x2)] + ([Odd(x3)] + LowBits(Half(x3), n));
  }

  lemma BlindEnds()
    ensures LowBits(BLIND, 28)[27]
  {
    hide LowBits;
    hide Nibble;
    BlindNibbles();
    LowBitsAt(BLIND, 24, 27);
    LowBitsAt(0x98_23B6, 20, 23);
    LowBitsAt(0x9_823B, 16, 19);
    LowBitsAt(0x9823, 12, 15);
    LowBitsAt(0x982, 8, 11);
    LowBitsAt(0x98, 4, 7);
    LastBlindBit();
  }

  lemma BlindNibbles()
    ensures Nibble(BLIND) == 0x98_23B6 && Nibble(0x98_23B6) == 0x9_823B && Nibble(0x9_823B) == 0x9823
    ensures Nibble(0x9823) == 0x982 && Nibble(0x982) == 0x98 && Nibble(0x98) == 0x9
  {
  }

  lemma LowBitsAt(x: bv32, n: nat, k: nat)
    requires 4 <= k < n + 4
    ensures LowBits(x, n + 4)[k] == LowBits(Nibble(x), n)[k - 4]
  {
    hide LowBits;
    hide Nibble;
    LowBitsSkipFour(x, n);
    assert LowBits(x, n + 4)[4..][k - 4] == LowBits(x, n + 4)[k];
  }

  lemma LastBlindBit()
    ensures LowBits(9, 4)[3]
  {
    LowBitsAt4(9);
  }

  lemma LowBitsAt4(x: bv32)
    ensures LowBits(x, 4)[3] == Odd(Half(Half(Half(x))))
  {
    hide Odd;
    hide Half;
    var x1 := Half(x);
    var x2 := Half(x1);
    assert LowBits(x, 4)[3] == LowBits(x1, 3)[2] == LowBits(x2, 2)[1] == LowBits(Half(x2), 1)[0];
  }

  /** In particular every change confined to three consecutive bytes is detected. */
  lemma ThreeBytes(a: seq<byte>, b: seq<byte>, previous: bv32, k: nat)
    requires |a| == |b| && a != b
    requires forall i :: 0 <= i < |a| && !(k <= i < k + 3) ==> a[i] == b[i]
    ensures Checksum(a, previous) != Checksum(b, previous)
  {
    hide Bits;
    hide LowBits;
    hide Checksum;
    forall i | 0 <= i < 8 * |a| && !(8 * k <= i < 8 * k + 27)
      ensures Bits(a)[i] == Bits(b)[i]
    {
      var j := i / 8;
      BitsAt(a, j);
      BitsAt(b, j);
      assert Bits(a)[i] == Bits(a)[8 * j..8 * j + 8][i - 8 * j];
      assert Bits(b)[i] == Bits(b)[8 * j..8 * j + 8][i - 8 * j];
    }
    BurstOf27(a, b, previous, 8 * k);
  }

  /** The limit of 27 bits is sharp: one pattern of 28 bits passes in every message. */
  lemma BlindSpot(front: seq<byte>, back: seq<byte>, previous: bv32)
    ensures Checksum(front + [0, 0, 0, 0] + back, previous)
         == Checksum(front + [0x6F, 0x3B, 0x82, 0x09] + back, previous)
  {
    hide Absorb;
    var start := Complement(previous);
    var crc := Absorb(start, front);
    SameFour(crc);
    AbsorbConcat(start, front + [0, 0, 0, 0], back);
    AbsorbConcat(start, front, [0, 0, 0, 0]);
    AbsorbConcat(start, front + [0x6F, 0x3B, 0x82, 0x09], back);
    AbsorbConcat(start, front, [0x6F, 0x3B, 0x82, 0x09]);
  }

  lemma SameFour(crc: bv32)
    ensures Absorb(crc, [0, 0, 0, 0]) == Absorb(crc, [0x6F, 0x3B, 0x82, 0x09])
  {
    hide Absorb;
    hide Shifts;
    var y, z: seq<byte> := [0, 0, 0, 0], [0x6F, 0x3B, 0x82, 0x09];
    assert Word(y) == 0 && Word(z) == BLIND;
    AbsorbWord(crc, y, Xor(crc, 0));
    XorZero(crc);
    AbsorbWord(crc, z, Xor(crc, BLIND));
    ShiftsSum(32, crc, BLIND, Xor(crc, BLIND));
    BlindOnly(32, BLIND);
    XorZero(Shifts(32, crc));
  }
}
