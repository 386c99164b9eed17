/** The checksum routines and the table they share. The reference is Crc.Checksum. */
module Crc32 {
  import opened Bytes
  import opened Crc

  const MAX_SLICE := 16
  const BYTES_AT_ONCE := 64

  // ---- the lookup table ----

  /** The byte value of a column, as a register. */
  function Column(i: nat): bv32
    requires i < 256
  {
    i as bv32
  }

  /** The column a word's low byte selects. */
  function Index(w: bv32): (i: nat)
    ensures i < 256 && Column(i) == w & 0xFF
  {
    var x := (w & 0xFF) as byte;
    assert x as bv32 == w & 0xFF;
    assert (x as int) as byte == x;
    ColumnOfByte(x as int, x);
    x as int
  }

  lemma ColumnOfByte(i: int, x: byte)
    requires 0 <= i < 256 && x == i as byte
    ensures Column(i) == x as bv32
  {
  }

  predicate Sized(lookup: array2<bv32>) {
    lookup.Length0 == MAX_SLICE && lookup.Length1 == 256
  }

  /** Row s of the table holds what 8 * (s + 1) bit steps make of each byte value. */
  ghost predicate IsTable(lookup: array2<bv32>)
    reads lookup
  {
    Sized(lookup) && forall s, i :: 0 <= s < MAX_SLICE && 0 <= i < 256 ==> lookup[s, i] == Row(s, Column(i))
  }

  method GenerateTable(lookup: array2<bv32>)
    requires Sized(lookup)
    modifies lookup
    ensures IsTable(lookup)
  {
    hide Row;
    hide Column;
    for i := 0 to 256
      invariant forall k :: 0 <= k < i ==> lookup[0, k] == Row(0, Column(k))
    {
      var crc := EightBits(i);
      lookup[0, i] := crc;
    }
    for i := 0 to 256
      invariant forall k :: 0 <= k < 256 ==> lookup[0, k] == Row(0, Column(k))
      invariant forall s, k :: 0 <= s < MAX_SLICE && 0 <= k < i ==> lookup[s, k] == Row(s, Column(k))
    {
      ExtendColumn(lookup, i);
    }
  }

  /** The inner loop that carries one column through the other fifteen rows. */
  method ExtendColumn(lookup: array2<bv32>, i: nat)
    requires Sized(lookup) && i < 256
    requires forall k :: 0 <= k < 256 ==> lookup[0, k] == Row(0, Column(k))
    modifies lookup
    ensures forall s :: 0 <= s < MAX_SLICE ==> lookup[s, i] == Row(s, Column(i))
    ensures forall s, k :: 0 <= s < MAX_SLICE && 0 <= k < 256 && (s == 0 || k != i) ==>
        lookup[s, k] == old(lookup[s, k])
  {
    hide Row;
    hide Column;
    hide Xor;
    for slice := 1 to MAX_SLICE
      invariant forall s :: 0 <= s < slice ==> lookup[s, i] == Row(s, Column(i))
      invariant forall s, k :: 0 <= s < MAX_SLICE && 0 <= k < 256 && (s == 0 || k != i) ==>
          lookup[s, k] == old(lookup[s, k])
    {
      NextRow(slice, Column(i));
      lookup[slice, i] := Xor(lookup[slice - 1, i] >> 8, lookup[0, Index(lookup[slice - 1, i])]);
    }
  }

  /** The bit loop that computes an entry of the first row. */
  method EightBits(i: nat) returns (crc: bv32)
    requires i < 256
    ensures crc == Row(0, Column(i))
  {
    hide Shifts;
    hide Column;
    crc := Column(i);
    ghost var start := crc;
    ShiftsNone(crc);
    for j := 0 to 8
      invariant crc == Shifts(j, start)
    {
      Multiplied(crc);
      ShiftsNext(j, start);
      crc := (crc >> 1) ^ ((crc & 1) * POLYNOMIAL);
    }
    FirstRow(start);
  }

  lemma ShiftsNone(crc: bv32)
    ensures Shifts(0, crc) == crc
  {
  }

  lemma FirstRow(x: bv32)
    ensures Row(0, x) == Shifts(8, x)
  {
    hide Shifts;
  }

  lemma ShiftsNext(j: nat, crc: bv32)
    ensures Shifts(j + 1, crc) == Shift(Shifts(j, crc))
  {
    ShiftsCompose(j, 1, crc);
    ShiftsOnce(Shifts(j, crc));
  }

  lemma ShiftsOnce(crc: bv32)
    ensures Shifts(1, crc) == Shift(crc)
  {
  }

  /** A row follows from the one below it by one table step over a zero byte. */
  lemma NextRow(s: nat, x: bv32)
    requires s > 0
    ensures Row(s, x) == Xor(Row(s - 1, x) >> 8, Row(0, Row(s - 1, x) & 0xFF))
  {
    hide Xor;
    hide Shifts;
    ShiftsCompose(8 * s, 8, x);
    EightSteps(Row(s - 1, x));
  }

  // ---- the four routines ----

  method Bitwise(data: seq<byte>, previousCrc32: bv32) returns (r: bv32)
    ensures r == Checksum(data, previousCrc32)
  {
    hide Shifts;
    hide Absorb;
    hide Xor;
    hide Complement;
    var crc := Complement(previousCrc32);
    ghost var start := crc;
    var current, length := 0, |data|;
    AbsorbNothing(start, data);
    while length != 0
      invariant 0 <= length && current + length == |data|
      invariant crc == Absorb(start, data[..current])
      decreases length
    {
      length := length - 1;
      AbsorbNext(start, data, current);
      crc := Xor(crc, data[current] as bv32);
      current := current + 1;
      ghost var mixed := crc;
      ShiftsNone(crc);
      for j := 0 to 8
        invariant crc == Shifts(j, mixed)
      {
        BranchFree(crc);
        ShiftsNext(j, mixed);
        crc := (crc >> 1) ^ ((0 - (crc & 1)) & POLYNOMIAL);
      }
    }
    assert data[..current] == data;
    r := Complement(crc);
  }

  lemma AbsorbNothing(crc: bv32, data: seq<byte>)
    ensures Absorb(crc, data[..0]) == crc
  {
  }

  lemma AbsorbNext(start: bv32, data: seq<byte>, i: nat)
    requires i < |data|
    ensures Absorb(start, data[..i + 1]) == AbsorbByte(Absorb(start, data[..i]), data[i])
  {
    hide AbsorbByte;
    assert data[..i + 1] == data[..i] + [data[i]];
    AbsorbConcat(start, data[..i], [data[i]]);
  }

  method OneByte(lookup: array2<bv32>, data: seq<byte>, previousCrc32: bv32) returns (r: bv32)
    requires IsTable(lookup)
    ensures r == Checksum(data, previousCrc32)
  {
    hide Absorb;
    hide Complement;
    var crc := Complement(previousCrc32);
    AbsorbNothing(crc, data);
    crc := ByteLoop(lookup, data, 0, Complement(previousCrc32), crc);
    r := Complement(crc);
  }

  /** The byte-at-a-time loop that OneByte consists of and the slicing forms end in. */
  method ByteLoop(lookup: array2<bv32>, data: seq<byte>, from: nat, ghost start: bv32, crc0: bv32) returns (crc: bv32)
    requires IsTable(lookup)
    requires from <= |data| && crc0 == Absorb(start, data[..from])
    ensures crc == Absorb(start, data)
  {
    hide Absorb;
    hide AbsorbByte;
    hide Row;
    crc := crc0;
    var current, length := from, |data| - from;
    while length != 0
      invariant 0 <= length && current + length == |data|
      invariant crc == Absorb(start, data[..current])
      decreases length
    {
      length := length - 1;
      AbsorbNext(start, data, current);
      OneRow(crc, data[current]);
      crc := TableStep(lookup, crc, data[current]);
      current := current + 1;
    }
    assert data[..current] == data;
  }

  function TableStep(lookup: array2<bv32>, crc: bv32, b: byte): (next: bv32)
    requires IsTable(lookup)
    reads lookup
    ensures next == AbsorbByte(crc, b)
  {
    OneRow(crc, b);
    IndexOfSum(crc, b);
    Xor(crc >> 8, lookup[0, Index(Xor(crc & 0xFF, b as bv32))])
  }

  lemma IndexOfSum(crc: bv32, b: byte)
    ensures Xor(crc & 0xFF, b as bv32) & 0xFF == Xor(crc & 0xFF, b as bv32)
  {
  }

  /** The lookups of one word's four bytes. */
  function Lookups(lookup: array2<bv32>, q: nat, w: bv32): (r: bv32)
    requires IsTable(lookup) && q + 3 < MAX_SLICE
    reads lookup
    ensures r == Rows(q, w)
  {
    Xor(Xor(Xor(lookup[q, Index(w >> 24)], lookup[q + 1, Index(w >> 16)]), lookup[q + 2, Index(w >> 8)]),
            lookup[q + 3, Index(w)])
  }

  method SixteenBytes(lookup: array2<bv32>, data: seq<byte>, previousCrc32: bv32) returns (r: bv32)
    requires IsTable(lookup)
    ensures r == Checksum(data, previousCrc32)
  {
    hide Absorb;
    hide Complement;
    var crc := Complement(previousCrc32);
    ghost var start := crc;
    var current, length := 0, |data|;
    AbsorbNothing(start, data);
    while length >= BYTES_AT_ONCE
      invariant 0 <= length && current + length == |data|
      invariant crc == Absorb(start, data[..current])
    {
      crc := Slices(lookup, data, current, start, crc);
      current := current + BYTES_AT_ONCE;
      length := length - BYTES_AT_ONCE;
    }
    crc := ByteLoop(lookup, data, current, start, crc);
    r := Complement(crc);
  }

  /** The 32-bit load of a little-endian machine. */
  function Load(data: seq<byte>, at: nat): bv32
    requires at + 4 <= |data|
  {
    Word(data[at..at + 4])
  }

  lemma SliceOfSlice<T>(s: seq<T>, at: nat, end: nat, lo: nat, hi: nat)
    requires lo <= hi && at + hi <= end <= |s|
    ensures s[at..end][lo..hi] == s[at + lo..at + hi]
  {
    var t := s[at..end];
    forall k | 0 <= k < hi - lo
      ensures t[lo..hi][k] == s[at + lo..at + hi][k]
    {
      assert t[lo..hi][k] == t[lo + k] == s[at + (lo + k)];
    }
  }

  lemma LoadsOfBlock(data: seq<byte>, at: nat, block: seq<byte>)
    requires at + 16 <= |data| && block == data[at..at + 16]
    ensures Load(data, at) == Word(block[0..4]) && Load(data, at + 4) == Word(block[4..8])
    ensures Load(data, at + 8) == Word(block[8..12]) && Load(data, at + 12) == Word(block[12..16])
  {
    hide Word;
    SliceOfSlice(data, at, at + 16, 0, 4);
    SliceOfSlice(data, at, at + 16, 4, 8);
    SliceOfSlice(data, at, at + 16, 8, 12);
    SliceOfSlice(data, at, at + 16, 12, 16);
  }

  /** The unrolled inner loop: four times sixteen bytes. */
  method Slices(lookup: array2<bv32>, data: seq<byte>, from: nat, ghost start: bv32, crc0: bv32) returns (crc: bv32)
    requires IsTable(lookup)
    requires from + BYTES_AT_ONCE <= |data| && crc0 == Absorb(start, data[..from])
    ensures crc == Absorb(start, data[..from + BYTES_AT_ONCE])
  {
    hide Absorb;
    hide Load;
    hide Lookups;
    hide Xor;
    hide Rows;
    crc := crc0;
    var current := from;
    for unrolling := 0 to 4
      invariant current == from + 16 * unrolling
      invariant crc == Absorb(start, data[..current])
    {
      AbsorbConcat(start, data[..current], data[current..current + 16]);
      assert data[..current] + data[current..current + 16] == data[..current + 16];
      var one := Xor(Load(data, current), crc);
      var two := Load(data, current + 4);
      var three := Load(data, current + 8);
      var four := Load(data, current + 12);
      SliceAbsorbs(data, current, crc, one, two, three, four);
      crc := Xor(Xor(Xor(Lookups(lookup, 0, four), Lookups(lookup, 4, three)), Lookups(lookup, 8, two)),
              Lookups(lookup, 12, one));
      current := current + 16;
    }
  }

  lemma SliceAbsorbs(data: seq<byte>, at: nat, crc: bv32, one: bv32, two: bv32, three: bv32, four: bv32)
    requires at + 16 <= |data|
    requires one == Xor(Load(data, at), crc) && two == Load(data, at + 4)
    requires three == Load(data, at + 8) && four == Load(data, at + 12)
    ensures Xor(Xor(Xor(Rows(0, four), Rows(4, three)), Rows(8, two)), Rows(12, one)) == Absorb(crc, data[at..at + 16])
  {
    hide Absorb;
    hide Rows;
    hide Word;
    hide Xor;
    hide Load;
    LoadsOfBlock(data, at, data[at..at + 16]);
    SixteenRows(crc, data[at..at + 16], one, two, three, four);
  }

  const SIZE_RANGE := 0x1_0000_0000_0000_0000

  /** The block loop's bound, added up in a 64-bit size_t. */
  function PrefetchGuard(prefetchAhead: nat): nat {
    (BYTES_AT_ONCE + prefetchAhead) % SIZE_RANGE
  }

  /** Whether the block loop ever starts on less than a whole block. */
  ghost predicate RunsPastEnd(length: nat, guard: nat) {
    length >= guard && (length < BYTES_AT_ONCE || RunsPastEnd(length - BYTES_AT_ONCE, guard))
  }

  /** The prefetching form runs past its data exactly when its 64-bit guard wrapped around to less than a
      block, and to no more than the part of the data that no block covers. */
  lemma {:induction false} PrefetchFitsExactly(length: nat, prefetchAhead: nat)
    ensures var guard := (64 + prefetchAhead) % 0x1_0000_0000_0000_0000;
            RunsPastEnd(length, guard) <==> guard < 64 && guard <= length % 64
    decreases length
  {
    if length >= BYTES_AT_ONCE {
      PrefetchFitsExactly(length - BYTES_AT_ONCE, prefetchAhead);
    }
  }

  method SixteenBytesPrefetch(lookup: array2<bv32>, data: seq<byte>, previousCrc32: bv32, prefetchAhead: nat)
    returns (r: bv32)
    requires IsTable(lookup)
    requires !RunsPastEnd(|data|, (64 + prefetchAhead) % 0x1_0000_0000_0000_0000)
    ensures r == Checksum(data, previousCrc32)
  {
    hide Absorb;
    hide Complement;
    var crc := Complement(previousCrc32);
    ghost var start := crc;
    var current, length := 0, |data|;
    AbsorbNothing(start, data);
    while length >= PrefetchGuard(prefetchAhead)
      invariant 0 <= length && current + length == |data|
      invariant !RunsPastEnd(length, PrefetchGuard(prefetchAhead))
      invariant crc == Absorb(start, data[..current])
    {
      crc := Slices(lookup, data, current, start, crc);
      current := current + BYTES_AT_ONCE;
      length := length - BYTES_AT_ONCE;
    }
    crc := ByteLoop(lookup, data, current, start, crc);
    r := Complement(crc);
  }

  /** The routine the packet code calls. */
  method Fast(lookup: array2<bv32>, data: seq<byte>, previousCrc32: bv32) returns (r: bv32)
    requires IsTable(lookup)
    ensures r == Checksum(data, previousCrc32)
  {
    r := OneByte(lookup, data, previousCrc32);
  }

  /** Each row of the table is a homomorphism for XOR. */
  lemma RowsAreLinear(lookup: array2<bv32>, s: nat, x: bv32, y: bv32)
    requires IsTable(lookup) && s < MAX_SLICE
    ensures lookup[s, Index(Xor(x, y))] == Xor(lookup[s, Index(x)], lookup[s, Index(y)])
  {
    LowByteOfSum(x, y);
    hide Xor;
    hide Column;
    hide Shifts;
    ShiftsSum(8 * (s + 1), x & 0xFF, y & 0xFF, Xor(x, y) & 0xFF);
  }

  lemma LowByteOfSum(x: bv32, y: bv32)
    ensures Xor(x & 0xFF, y & 0xFF) == Xor(x, y) & 0xFF
  {
  }
}
