/** The resumable encoder. */
module Base64Encoder {
  import opened Bytes
  import opened Base64

  const GROUPS_PER_LINE := 18

  datatype EncodeStep = StepA | StepB | StepC

  /** Where the encoder is inside a group, the bits it holds back, and the groups on this line. */
  datatype EncodeState = EncodeState(step: EncodeStep, result: byte, stepcount: nat)

  const FRESH := EncodeState(StepA, 0, 0)

  /** The states the encoder gets into: at most two or four bits held back, in their place. */
  predicate Reachable(s: EncodeState) {
    && s.stepcount < GROUPS_PER_LINE
    && (s.step.StepB? ==> s.result & 0xCF == 0)
    && (s.step.StepC? ==> s.result & 0xC3 == 0)
  }

  // ---- the pieces of a byte ----

  function HighSix(b: byte): byte {
    (b & 0xFC) >> 2
  }

  function LowTwo(b: byte): byte {
    (b & 0x03) << 4
  }

  function HighFour(b: byte): byte {
    (b & 0xF0) >> 4
  }

  function LowFour(b: byte): byte {
    (b & 0x0F) << 2
  }

  function HighTwo(b: byte): byte {
    (b & 0xC0) >> 6
  }

  lemma SixBits(s: EncodeState, b: byte)
    requires Reachable(s)
    ensures HighSix(b) <= 63 && LowSix(b) <= 63
    ensures s.step.StepB? ==> Join(s.result, HighFour(b)) <= 63
    ensures s.step.StepC? ==> Join(s.result, HighTwo(b)) <= 63
  {
  }

  // ---- one byte ----

  function After1(s: EncodeState, b: byte): (t: EncodeState)
    requires Reachable(s)
    ensures Reachable(t)
  {
    match s.step
    case StepA => EncodeState(StepB, LowTwo(b), s.stepcount)
    case StepB => EncodeState(StepC, LowFour(b), s.stepcount)
    case StepC => EncodeState(StepA, LowSix(b), if s.stepcount + 1 == GROUPS_PER_LINE then 0 else s.stepcount + 1)
  }

  function Output1(s: EncodeState, b: byte): seq<byte>
    requires Reachable(s)
  {
    match s.step
    case StepA => [EncodeValue(HighSix(b))]
    case StepB => [EncodeValue(Join(s.result, HighFour(b)))]
    case StepC =>
      [EncodeValue(Join(s.result, HighTwo(b))), EncodeValue(LowSix(b))]
      + if s.stepcount + 1 == GROUPS_PER_LINE then [NEWLINE] else []
  }

  // ---- a block ----

  function After(s: EncodeState, data: seq<byte>): (t: EncodeState)
    requires Reachable(s)
    ensures Reachable(t)
    decreases |data|
  {
    if data == [] then s else After(After1(s, data[0]), data[1..])
  }

  function Output(s: EncodeState, data: seq<byte>): seq<byte>
    requires Reachable(s)
    decreases |data|
  {
    if data == [] then [] else Output1(s, data[0]) + Output(After1(s, data[0]), data[1..])
  }

  /** What blockend appends. */
  function EndOutput(s: EncodeState): seq<byte>
    requires Reachable(s)
  {
    match s.step
    case StepA => [NEWLINE]
    case StepB => [EncodeValue(s.result), PAD, PAD, NEWLINE]
    case StepC => [EncodeValue(s.result), PAD, NEWLINE]
  }

  function Text(data: seq<byte>): seq<byte> {
    Output(FRESH, data) + EndOutput(After(FRESH, data))
  }

  /** Splitting the input into two blocks changes neither the output nor the state carried on. */
  lemma {:induction false} BlocksCompose(s: EncodeState, a: seq<byte>, b: seq<byte>)
    requires Reachable(s)
    ensures After(s, a + b) == After(After(s, a), b)
    ensures Output(s, a + b) == Output(s, a) + Output(After(s, a), b)
    decreases |a|
  {
    hide After1;
    hide Output1;
    if a == [] {
      assert a + b == b;
    } else {
      assert (a + b)[1..] == a[1..] + b;
      BlocksCompose(After1(s, a[0]), a[1..], b);
    }
  }

  /** What a run over any sequence of blocks writes before blockend. */
  function OutputBlocks(s: EncodeState, blocks: seq<seq<byte>>): seq<byte>
    requires Reachable(s)
    decreases |blocks|
  {
    if blocks == [] then [] else Output(s, blocks[0]) + OutputBlocks(After(s, blocks[0]), blocks[1..])
  }

  function AfterBlocks(s: EncodeState, blocks: seq<seq<byte>>): (t: EncodeState)
    requires Reachable(s)
    ensures Reachable(t)
    decreases |blocks|
  {
    if blocks == [] then s else AfterBlocks(After(s, blocks[0]), blocks[1..])
  }

  lemma {:induction false} BlocksDoNotMatter(s: EncodeState, blocks: seq<seq<byte>>)
    requires Reachable(s)
    ensures OutputBlocks(s, blocks) == Output(s, Flatten(blocks))
    ensures AfterBlocks(s, blocks) == After(s, Flatten(blocks))
    decreases |blocks|
  {
    if blocks != [] {
      hide After1;
      hide Output1;
      BlocksDoNotMatter(After(s, blocks[0]), blocks[1..]);
      BlocksCompose(s, blocks[0], Flatten(blocks[1..]));
    }
  }

  // ---- the encoder itself ----

  class Encoder {
    var step: EncodeStep
    var result: byte
    var stepcount: nat

    function State(): EncodeState
      reads this
    {
      EncodeState(step, result, stepcount)
    }

    constructor ()
      ensures State() == FRESH
    {
      step, result, stepcount := StepA, 0, 0;
    }

    method Emit(codeOut: array<byte>, at: nat, c: byte, ghost written: seq<byte>)
      requires at < codeOut.Length && codeOut[..at] == written
      modifies codeOut
      ensures codeOut[..at + 1] == written + [c]
      ensures codeOut[at + 1..] == old(codeOut[at + 1..])
    {
      codeOut[at] := c;
    }

    /** From one label of the state machine to the next. */
    method EncodeByte(fragment: byte, codeOut: array<byte>, at: nat, ghost written: seq<byte>) returns (codechar: nat)
      requires Reachable(State())
      requires at + |Output1(State(), fragment)| <= codeOut.Length && codeOut[..at] == written
      modifies this, codeOut
      ensures State() == After1(old(State()), fragment)
      ensures codechar == at + |Output1(old(State()), fragment)|
      ensures codeOut[..codechar] == written + Output1(old(State()), fragment)
      ensures codeOut[codechar..] == old(codeOut[codechar..])
    {
      SixBits(State(), fragment);
      hide HighSix;
      hide LowTwo;
      hide HighFour;
      hide LowFour;
      hide HighTwo;
      hide LowSix;
      hide Join;
      hide Reachable;
      hide EncodeValue;
      codechar := at;
      match step {
        case StepA =>
          Emit(codeOut, codechar, EncodeValue(HighSix(fragment)), written);
          codechar := codechar + 1;
          result := LowTwo(fragment);
          step := StepB;
        case StepB =>
          Emit(codeOut, codechar, EncodeValue(Join(result, HighFour(fragment))), written);
          codechar := codechar + 1;
          result := LowFour(fragment);
          step := StepC;
        case StepC =>
          codechar := EncodeThird(fragment, codeOut, codechar, written);
      }
    }

    /** The third label writes two characters, and a newline when the line is full. */
    method EncodeThird(fragment: byte, codeOut: array<byte>, at: nat, ghost written: seq<byte>) returns (codechar: nat)
      requires Reachable(State()) && step.StepC?
      requires at + |Output1(State(), fragment)| <= codeOut.Length && codeOut[..at] == written
      modifies this, codeOut
      ensures State() == After1(old(State()), fragment)
      ensures codechar == at + |Output1(old(State()), fragment)|
      ensures codeOut[..codechar] == written + Output1(old(State()), fragment)
      ensures codeOut[codechar..] == old(codeOut[codechar..])
    {
      SixBits(State(), fragment);
      hide HighTwo;
      hide LowSix;
      hide Join;
      hide Reachable;
      hide EncodeValue;
      var c := EncodeValue(Join(result, HighTwo(fragment)));
      ghost var rest := codeOut[at..];
      Emit(codeOut, at, c, written);
      assert codeOut[at + 1..] == rest[1..];
      result := LowSix(fragment);
      var d := EncodeValue(result);
      Emit(codeOut, at + 1, d, written + [c]);
      assert codeOut[at + 2..] == rest[1..][1..] == rest[2..];
      codechar := at + 2;
      assert written + [c] + [d] == written + [c, d];
      stepcount := stepcount + 1;
      if stepcount == GROUPS_PER_LINE {
        Emit(codeOut, codechar, NEWLINE, written + [c, d]);
        assert codeOut[at + 3..] == rest[2..][1..] == rest[3..];
        codechar := codechar + 1;
        stepcount := 0;
      }
      step := StepA;
    }

    /** Encodes one block and carries the rest over. */
    method EncodeBlock(plaintext: seq<byte>, codeOut: array<byte>) returns (n: nat)
      requires Reachable(State())
      requires |Output(State(), plaintext)| <= codeOut.Length
      modifies this, codeOut
      ensures State() == After(old(State()), plaintext)
      ensures n == |Output(old(State()), plaintext)|
      ensures codeOut[..n] == Output(old(State()), plaintext)
      ensures codeOut[n..] == old(codeOut[n..])
    {
      hide After1;
      hide Output1;
      ghost var s0 := State();
      var plainchar, codechar := 0, 0;
      while plainchar < |plaintext|
        invariant plainchar <= |plaintext|
        invariant codechar == |Output(s0, plaintext[..plainchar])| <= codeOut.Length
        invariant State() == After(s0, plaintext[..plainchar])
        invariant codeOut[..codechar] == Output(s0, plaintext[..plainchar])
        invariant codeOut[codechar..] == old(codeOut[codechar..])
      {
        OutputGrows(s0, plaintext, plainchar);
        ghost var written := Output(s0, plaintext[..plainchar]);
        hide Output;
        hide After;
        codechar := EncodeByte(plaintext[plainchar], codeOut, codechar, written);
        plainchar := plainchar + 1;
      }
      assert plaintext[..plainchar] == plaintext;
      n := codechar;
    }

    /** Ends the text. The state is left as it was. */
    method EncodeBlockEnd(codeOut: array<byte>) returns (n: nat)
      requires Reachable(State()) && |EndOutput(State())| <= codeOut.Length
      modifies codeOut
      ensures n == |EndOutput(State())|
      ensures codeOut[..n] == EndOutput(State())
      ensures codeOut[n..] == old(codeOut[n..])
    {
      hide EncodeValue;
      n := 0;
      match step {
        case StepB =>
          codeOut[0] := EncodeValue(result);
          codeOut[1] := PAD;
          codeOut[2] := PAD;
          n := 3;
        case StepC =>
          codeOut[0] := EncodeValue(result);
          codeOut[1] := PAD;
          n := 2;
        case StepA =>
      }
      codeOut[n] := NEWLINE;
      n := n + 1;
    }
  }

  lemma OutputGrows(s: EncodeState, data: seq<byte>, i: nat)
    requires Reachable(s) && i < |data|
    ensures After(s, data[..i + 1]) == After1(After(s, data[..i]), data[i])
    ensures Output(s, data[..i + 1]) == Output(s, data[..i]) + Output1(After(s, data[..i]), data[i])
    ensures |Output(s, data[..i + 1])| <= |Output(s, data)|
  {
    hide After1;
    hide Output1;
    assert data[..i + 1] == data[..i] + [data[i]];
    BlocksCompose(s, data[..i], [data[i]]);
    var t := After(s, data[..i]);
    assert Output(t, [data[i]]) == Output1(t, data[i]) + [];
    assert data == data[..i + 1] + data[i + 1..];
    BlocksCompose(s, data[..i + 1], data[i + 1..]);
  }
}
