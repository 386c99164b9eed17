/** What the encoder's text looks like: the standard encoding, broken into lines of 72 characters. */
module Base64Layout {
  import opened Bytes
  import opened Base64
  import opened Base64Encoder

  const BYTES_PER_LINE := 54
  const CHARS_PER_LINE := 72

  // ---- the standard encoding, section 4 of RFC 4648 ----

  /** Three bytes as one 24-bit group, cut into four six-bit values. */
  function Group(b0: byte, b1: byte, b2: byte): bv24 {
    (b0 as bv24 << 16) | (b1 as bv24 << 8) | b2 as bv24
  }

  function Sextet(g: bv24, i: nat): (v: byte)
    requires i < 4
    ensures v <= 63
  {
    var v := if i == 0 then g >> 18 else if i == 1 then g >> 12 else if i == 2 then g >> 6 else g;
    (v & 0x3F) as byte
  }

  function Quad(g: bv24): (q: seq<byte>)
    ensures |q| == 4
  {
    [EncodeValue(Sextet(g, 0)), EncodeValue(Sextet(g, 1)), EncodeValue(Sextet(g, 2)), EncodeValue(Sextet(g, 3))]
  }

  /** Whole groups, then a group filled up with zero bits whose unused characters are padding. */
  function Standard(data: seq<byte>): seq<byte>
    decreases |data|
  {
    if |data| == 0 then []
    else if |data| == 1 then Quad(Group(data[0], 0, 0))[..2] + [PAD, PAD]
    else if |data| == 2 then Quad(Group(data[0], data[1], 0))[..3] + [PAD]
    else Quad(Group(data[0], data[1], data[2])) + Standard(data[3..])
  }

  /** The standard encoding of 54 bytes per line; what is left has a line of its own. The first line
      has room for room groups. */
  function Lines(data: seq<byte>, room: nat): seq<byte>
    requires room >= 1
    decreases |data|
  {
    if |data| >= 3 * room then Standard(data[..3 * room]) + [NEWLINE] + Lines(data[3 * room..], GROUPS_PER_LINE)
    else Standard(data) + [NEWLINE]
  }

  // ---- the encoder writes exactly that ----

  lemma FirstCharacter(b0: byte, b1: byte, b2: byte)
    ensures HighSix(b0) == Sextet(Group(b0, b1, b2), 0)
  {
  }

  lemma SecondCharacter(b0: byte, b1: byte, b2: byte)
    ensures Join(LowTwo(b0), HighFour(b1)) == Sextet(Group(b0, b1, b2), 1)
  {
  }

  lemma ThirdCharacter(b0: byte, b1: byte, b2: byte)
    ensures Join(LowFour(b1), HighTwo(b2)) == Sextet(Group(b0, b1, b2), 2)
  {
  }

  lemma FourthCharacter(b0: byte, b1: byte, b2: byte)
    ensures LowSix(b2) == Sextet(Group(b0, b1, b2), 3)
  {
  }

  /** The state after a whole group. */
  function NextGroup(s: EncodeState, b: byte): EncodeState {
    EncodeState(StepA, LowSix(b), if s.stepcount + 1 == GROUPS_PER_LINE then 0 else s.stepcount + 1)
  }

  function LineEnd(s: EncodeState): seq<byte> {
    if s.stepcount + 1 == GROUPS_PER_LINE then [NEWLINE] else []
  }

  lemma GroupSteps(s: EncodeState, b0: byte, b1: byte, b2: byte)
    requires Reachable(s) && s.step.StepA?
    ensures var s1 := After1(s, b0);
            var s2 := After1(s1, b1);
            && After1(s2, b2) == NextGroup(s, b2)
            && Output1(s, b0) == [EncodeValue(Sextet(Group(b0, b1, b2), 0))]
            && Output1(s1, b1) == [EncodeValue(Sextet(Group(b0, b1, b2), 1))]
            && Output1(s2, b2)
               == [EncodeValue(Sextet(Group(b0, b1, b2), 2)), EncodeValue(Sextet(Group(b0, b1, b2), 3))] + LineEnd(s)
  {
    FirstCharacter(b0, b1, b2);
    SecondCharacter(b0, b1, b2);
    ThirdCharacter(b0, b1, b2);
    FourthCharacter(b0, b1, b2);
    hide Join;
    hide LowSix;
    hide HighTwo;
    hide HighSix;
    hide HighFour;
    hide LowFour;
    hide LowTwo;
    hide EncodeValue;
    hide Sextet;
    hide Group;
    hide Reachable;
  }

  lemma OneGroup(s: EncodeState, data: seq<byte>)
    requires Reachable(s) && s.step.StepA? && |data| >= 3
    ensures var t := NextGroup(s, data[2]);
            && Reachable(t)
            && After(s, data) == After(t, data[3..])
            && Output(s, data) == Quad(Group(data[0], data[1], data[2])) + LineEnd(s) + Output(t, data[3..])
  {
    hide EncodeValue;
    hide Sextet;
    hide Group;
    var b0, b1, b2 := data[0], data[1], data[2];
    GroupSteps(s, b0, b1, b2);
    Unfold3(s, data);
    hide After1;
    hide Output1;
    hide After;
    hide Output;
    hide Reachable;
    var g := Group(b0, b1, b2);
    QuadParts(g, LineEnd(s));
  }

  lemma QuadParts(g: bv24, end: seq<byte>)
    ensures [EncodeValue(Sextet(g, 0))] + [EncodeValue(Sextet(g, 1))]
            + ([EncodeValue(Sextet(g, 2)), EncodeValue(Sextet(g, 3))] + end)
         == Quad(g) + end
  {
    hide EncodeValue;
    hide Sextet;
  }

  lemma Unfold1(s: EncodeState, data: seq<byte>, rest: seq<byte>)
    requires Reachable(s) && data != [] && rest == data[1..]
    ensures After(s, data) == After(After1(s, data[0]), rest)
    ensures Output(s, data) == Output1(s, data[0]) + Output(After1(s, data[0]), rest)
  {
    hide After1;
    hide Output1;
    hide Reachable;
  }

  lemma Unfold3(s: EncodeState, data: seq<byte>)
    requires Reachable(s) && |data| >= 3
    ensures var s1 := After1(s, data[0]);
            var s2 := After1(s1, data[1]);
            var s3 := After1(s2, data[2]);
            && After(s, data) == After(s3, data[3..])
            && Output(s, data)
               == Output1(s, data[0]) + Output1(s1, data[1]) + Output1(s2, data[2]) + Output(s3, data[3..])
  {
    hide After1;
    hide Output1;
    hide Reachable;
    hide Output;
    hide After;
    var s1 := After1(s, data[0]);
    var s2 := After1(s1, data[1]);
    Unfold1(s, data, data[1..]);
    Unfold1(s1, data[1..], data[2..]);
    Unfold1(s2, data[2..], data[3..]);
    Regroup(Output1(s, data[0]), Output1(s1, data[1]), Output1(s2, data[2]), Output(After1(s2, data[2]), data[3..]));
  }

  lemma Regroup(a: seq<byte>, b: seq<byte>, c: seq<byte>, d: seq<byte>)
    ensures a + (b + (c + d)) == a + b + c + d
  {
  }

  lemma LinesStep(data: seq<byte>, room: nat)
    requires |data| >= 3 && room > 1
    ensures Lines(data, room) == Quad(Group(data[0], data[1], data[2])) + Lines(data[3..], room - 1)
  {
    hide Quad;
    hide Group;
    if |data| >= 3 * room {
      assert data[..3 * room][3..] == data[3..][..3 * (room - 1)];
      assert data[3 * room..] == data[3..][3 * (room - 1)..];
    }
  }

  lemma ShortEnd(s: EncodeState, data: seq<byte>)
    requires Reachable(s) && s.step.StepA? && |data| < 3
    ensures Output(s, data) + EndOutput(After(s, data)) == Standard(data) + [NEWLINE]
  {
    if |data| == 1 {
      FirstCharacter(data[0], 0, 0);
      SecondCharacter(data[0], 0, 0);
      NothingJoined(LowTwo(data[0]));
      hide EncodeValue;
      hide Sextet;
      Unfold1(s, data, []);
    } else if |data| == 2 {
      FirstCharacter(data[0], data[1], 0);
      SecondCharacter(data[0], data[1], 0);
      ThirdCharacter(data[0], data[1], 0);
      NothingJoined(LowFour(data[1]));
      hide EncodeValue;
      hide Sextet;
      Unfold1(s, data, [data[1]]);
      Unfold1(After1(s, data[0]), [data[1]], []);
    }
  }

  lemma NothingJoined(held: byte)
    ensures Join(held, HighFour(0)) == held && Join(held, HighTwo(0)) == held
  {
  }

  /** From a group boundary the encoder writes the standard encoding, line by line. */
  lemma {:induction false} OutputIsLines(s: EncodeState, data: seq<byte>)
    requires Reachable(s) && s.step.StepA?
    ensures Output(s, data) + EndOutput(After(s, data)) == Lines(data, GROUPS_PER_LINE - s.stepcount)
    decreases |data|
  {
    hide Output;
    hide After;
    hide EndOutput;
    hide Quad;
    hide Group;
    hide Reachable;
    RoomLeft(s);
    if |data| < 3 {
      ShortEnd(s, data);
      hide Standard;
    } else {
      var room := GROUPS_PER_LINE - s.stepcount;
      var t, q, rest := NextGroup(s, data[2]), Quad(Group(data[0], data[1], data[2])), data[3..];
      OneGroup(s, data);
      OutputIsLines(t, rest);
      if room == 1 {
        assert data[..3][3..] == [];
        assert Standard(data[..3]) == q + Standard([]);
        assert Lines(data, room) == q + [NEWLINE] + Lines(rest, GROUPS_PER_LINE);
      } else {
        LinesStep(data, room);
      }
      hide Lines;
      hide Standard;
      AppendEnd(q, LineEnd(s), Output(t, rest), EndOutput(After(t, rest)));
    }
  }

  lemma RoomLeft(s: EncodeState)
    requires Reachable(s)
    ensures s.stepcount < GROUPS_PER_LINE
  {
  }

  lemma AppendEnd(q: seq<byte>, line: seq<byte>, out: seq<byte>, end: seq<byte>)
    ensures q + line + out + end == q + line + (out + end)
    ensures line == [] ==> q + line + (out + end) == q + (out + end)
  {
  }

  lemma TextIsLines(data: seq<byte>)
    ensures Text(data) == Lines(data, GROUPS_PER_LINE)
  {
    OutputIsLines(FRESH, data);
  }

  // ---- sizes ----

  lemma {:induction false} StandardLength(data: seq<byte>)
    ensures |Standard(data)| == 4 * ((|data| + 2) / 3)
    decreases |data|
  {
    hide Quad;
    hide Group;
    if |data| >= 3 {
      StandardLength(data[3..]);
    }
  }

  /** A full line is exactly 72 characters before its newline. */
  lemma FullLine(data: seq<byte>)
    requires |data| == 54
    ensures |Standard(data)| == 72
  {
    StandardLength(data);
  }

  /** The only newlines are those that end lines. */
  lemma {:induction false} NoNewlineInside(data: seq<byte>)
    ensures NEWLINE !in Standard(data)
    decreases |data|
  {
    if |data| == 0 {
    } else {
      var g := if |data| == 1 then Group(data[0], 0, 0) else if |data| == 2 then Group(data[0], data[1], 0)
          else Group(data[0], data[1], data[2]);
      LetterDecodes(Sextet(g, 0));
      LetterDecodes(Sextet(g, 1));
      LetterDecodes(Sextet(g, 2));
      LetterDecodes(Sextet(g, 3));
      hide Sextet;
      hide Group;
      hide EncodeValue;
      if |data| >= 3 {
        NoNewlineInside(data[3..]);
      }
    }
  }

  lemma {:induction false} LinesLength(data: seq<byte>)
    ensures |Lines(data, GROUPS_PER_LINE)| == 4 * ((|data| + 2) / 3) + |data| / BYTES_PER_LINE + 1
    decreases |data|
  {
    hide Standard;
    if |data| >= BYTES_PER_LINE {
      var line, rest := data[..BYTES_PER_LINE], data[BYTES_PER_LINE..];
      FullLine(line);
      LinesLength(rest);
      assert Lines(data, GROUPS_PER_LINE) == Standard(line) + [NEWLINE] + Lines(rest, GROUPS_PER_LINE);
      hide Lines;
      assert |rest| / BYTES_PER_LINE + 1 == |data| / BYTES_PER_LINE;
      assert (|rest| + 2) / 3 + 18 == (|data| + 2) / 3;
    } else {
      StandardLength(data);
    }
  }

  /** The exact size of the whole text. */
  lemma TextLength(data: seq<byte>)
    ensures |Text(data)| == 4 * ((|data| + 2) / 3) + |data| / 54 + 1
  {
    TextIsLines(data);
    LinesLength(data);
  }

  /** Every 54 bytes a newline follows 72 characters. */
  lemma LineBreak(data: seq<byte>, k: nat)
    requires 54 * (k + 1) <= |data|
    ensures 73 * k + 72 < |Text(data)| && Text(data)[73 * k + 72] == 10
  {
    TextIsLines(data);
    LineBreakIn(data, k);
  }

  lemma {:induction false} LineBreakIn(data: seq<byte>, k: nat)
    requires 54 * (k + 1) <= |data|
    ensures 73 * k + 72 < |Lines(data, GROUPS_PER_LINE)| && Lines(data, GROUPS_PER_LINE)[73 * k + 72] == 10
    decreases k
  {
    hide Standard;
    var line, rest := data[..54], data[54..];
    FullLine(line);
    var tail := Lines(rest, GROUPS_PER_LINE);
    assert Lines(data, GROUPS_PER_LINE) == Standard(line) + [NEWLINE] + tail;
    if k > 0 {
      LineBreakIn(rest, k - 1);
      assert 73 * k + 72 - 73 == 73 * (k - 1) + 72;
    }
  }

  /** Test vectors of section 10 of RFC 4648: "f", "fo", "foo" and "foobar". */
  lemma Vectors()
    ensures Standard([102]) == [90, 103, 61, 61]
    ensures Standard([102, 111]) == [90, 109, 56, 61]
    ensures Standard([102, 111, 111]) == [90, 109, 57, 118]
    ensures Standard([102, 111, 111, 98, 97, 114]) == [90, 109, 57, 118, 89, 109, 70, 121]
  {
    var foobar: seq<byte> := [102, 111, 111, 98, 97, 114];
    assert foobar[3..] == [98, 97, 114] && foobar[3..][3..] == [] && [102, 111, 111][3..] == [];
  }

  function Position(step: EncodeStep): nat {
    match step
    case StepA => 0
    case StepB => 1
    case StepC => 2
  }

  /** The exact size of one block's output, from any state. */
  lemma {:induction false} OutputLength(s: EncodeState, data: seq<byte>)
    requires Reachable(s)
    ensures var groups := (Position(s.step) + |data|) / 3;
            |Output(s, data)| == |data| + groups + (s.stepcount + groups) / GROUPS_PER_LINE
    decreases |data|
  {
    if data != [] {
      OutputLength(After1(s, data[0]), data[1..]);
      hide EncodeValue;
      Unfold1(s, data, data[1..]);
    }
  }

  /** A buffer of twice the block size is enough for blocks of at most n >= 2 bytes and for blockend. */
  lemma BlockFits(s: EncodeState, data: seq<byte>, n: nat)
    requires Reachable(s) && |data| <= n && n >= 2
    ensures |Output(s, data)| <= 2 * n && |EndOutput(s)| <= 2 * n
  {
    OutputLength(s, data);
  }

  /** For single bytes it is enough except at the very end of a line. */
  lemma ByteFits(s: EncodeState, data: seq<byte>)
    requires Reachable(s) && |data| == 1
    ensures |Output(s, data)| <= 2 <==> !(s.step.StepC? && s.stepcount == GROUPS_PER_LINE - 1)
  {
    OutputLength(s, data);
  }

  // ---- the stream wrapper's buffers ----

  /** Whether every block of at most n bytes, and the end, fit the 2n characters of the stream wrapper. */
  predicate StreamFits(s: EncodeState, data: seq<byte>, n: nat)
    requires Reachable(s) && n >= 1
    decreases |data|
  {
    if data == [] then |EndOutput(s)| <= 2 * n else
    var k := if |data| < n then |data| else n;
    |Output(s, data[..k])| <= 2 * n && StreamFits(After(s, data[..k]), data[k..], n)
  }

  lemma {:induction false} LargeBlocksFit(s: EncodeState, data: seq<byte>, n: nat)
    requires Reachable(s) && n >= 2
    ensures StreamFits(s, data, n)
    decreases |data|
  {
    BlockFits(s, [], n);
    if data != [] {
      var k := if |data| < n then |data| else n;
      BlockFits(s, data[..k], n);
      LargeBlocksFit(After(s, data[..k]), data[k..], n);
    }
  }

  /** Where in its line the encoder is, in bytes. */
  function LinePosition(s: EncodeState): nat {
    3 * s.stepcount + Position(s.step)
  }

  lemma OneByte(s: EncodeState, data: seq<byte>)
    requires Reachable(s) && data != []
    ensures data[..1] == [data[0]] && After(s, data[..1]) == After1(s, data[0])
    ensures |Output(s, data[..1])| <= 2 <==> LinePosition(s) != BYTES_PER_LINE - 1
    ensures LinePosition(s) != BYTES_PER_LINE - 1 ==> LinePosition(After1(s, data[0])) == LinePosition(s) + 1
  {
    assert [data[0]][1..] == [];
    ByteFits(s, data[..1]);
  }

  lemma {:induction false} SingleBytesFit(s: EncodeState, data: seq<byte>)
    requires Reachable(s)
    ensures StreamFits(s, data, 1) <==> LinePosition(s) + |data| < BYTES_PER_LINE && (LinePosition(s) + |data|) % 3 == 0
    decreases |data|
  {
    if data != [] {
      OneByte(s, data);
      hide EncodeValue;
      hide Reachable;
      SingleBytesFit(After1(s, data[0]), data[1..]);
    }
  }

  /** The wrapper's buffer is large enough for every stream from two bytes a block on. For single bytes
      it is large enough exactly for whole groups that do not fill the line. */
  lemma StreamFitsExactly(data: seq<byte>, n: nat)
    requires n >= 1
    ensures StreamFits(FRESH, data, n) <==> n >= 2 || (|data| < 54 && |data| % 3 == 0)
  {
    if n >= 2 {
      LargeBlocksFit(FRESH, data, n);
    } else {
      SingleBytesFit(FRESH, data);
    }
  }
}
