/** Decoding undoes encoding, however both sides cut their data into blocks. */
module Base64RoundTrip {
  import opened Bytes
  import opened Base64
  import Enc = Base64Encoder
  import Dec = Base64Decoder

  // ---- the bits of one byte on their way through ----

  function TopSix(b: byte): byte {
    b & 0xFC
  }

  function TopFour(b: byte): byte {
    b & 0xF0
  }

  lemma FirstPiece(b: byte)
    ensures Enc.HighSix(b) <= 63
    ensures Dec.AllSix(Enc.HighSix(b)) == TopSix(b)
  {
  }

  lemma SecondPiece(x: byte, b: byte)
    ensures Join(Enc.LowTwo(x), Enc.HighFour(b)) <= 63
    ensures Join(TopSix(x), Dec.UpperTwo(Join(Enc.LowTwo(x), Enc.HighFour(b)))) == x
    ensures Dec.LowerFour(Join(Enc.LowTwo(x), Enc.HighFour(b))) == TopFour(b)
  {
  }

  lemma ThirdPiece(x: byte, b: byte)
    ensures Join(Enc.LowFour(x), Enc.HighTwo(b)) <= 63
    ensures Join(TopFour(x), Dec.UpperFour(Join(Enc.LowFour(x), Enc.HighTwo(b)))) == x
  {
  }

  lemma FourthPiece(x: byte, b: byte)
    ensures LowSix(b) <= 63
    ensures Join(Dec.LowerTwo(Join(Enc.LowFour(x), Enc.HighTwo(b))), LowSix(LowSix(b))) == b
  {
  }

  lemma LastPieces(x: byte)
    ensures Enc.LowTwo(x) <= 63 && Join(TopSix(x), Dec.UpperTwo(Enc.LowTwo(x))) == x
    ensures Enc.LowFour(x) <= 63 && Join(TopFour(x), Dec.UpperFour(Enc.LowFour(x))) == x
  {
  }

  // ---- the simulation ----

  /** How far the decoder is when it has read all the encoder has written about data. */
  predicate InStep(data: seq<byte>, e: Enc.EncodeState, decoded: seq<byte>, d: Dec.DecodeState) {
    match e.step
    case StepA => d == Dec.FRESH && decoded == data
    case StepB =>
      && data != [] && decoded == data[..|data| - 1]
      && e.result == Enc.LowTwo(data[|data| - 1])
      && d == Dec.DecodeState(Dec.StepB, TopSix(data[|data| - 1]))
    case StepC =>
      && data != [] && decoded == data[..|data| - 1]
      && e.result == Enc.LowFour(data[|data| - 1])
      && d == Dec.DecodeState(Dec.StepC, TopFour(data[|data| - 1]))
  }

  /** Reading one letter of the alphabet. */
  lemma ReadLetter(d: Dec.DecodeState, value: byte)
    requires value <= 63
    ensures var c := EncodeValue(value);
            && c != BRACE && Dec.Clean([c])
            && Dec.After(d, [c]) == Dec.After1(d, c)
            && Dec.Output(d, [c]) == Dec.Output1(d, c)
            && DecodeValue(c) == value && !Negative(value)
  {
    LetterDecodes(value);
    hide EncodeValue;
    hide DecodeValue;
    var c := EncodeValue(value);
    assert [c][1..] == [];
    assert Dec.Output(d, [c]) == Dec.Output1(d, c) + [];
  }

  /** Reading what ends a line or the text. */
  lemma {:induction false} ReadForeign(d: Dec.DecodeState, code: seq<byte>)
    requires forall i :: 0 <= i < |code| ==> code[i] == NEWLINE || code[i] == PAD
    ensures Dec.Clean(code) && Dec.After(d, code) == d && Dec.Output(d, code) == []
    decreases |code|
  {
    ForeignCharacters();
    hide DecodeValue;
    hide Negative;
    if code != [] {
      assert NEWLINE != BRACE && PAD != BRACE;
      ReadForeign(d, code[1..]);
    }
  }

  lemma KeepsStepA(data: seq<byte>, b: byte, e: Enc.EncodeState, decoded: seq<byte>, d: Dec.DecodeState)
    requires Enc.Reachable(e) && e.step.StepA? && InStep(data, e, decoded, d)
    ensures var chars := Enc.Output1(e, b);
            Dec.Clean(chars) && InStep(data + [b], Enc.After1(e, b), decoded + Dec.Output(d, chars),
                    Dec.After(d, chars))
  {
    FirstPiece(b);
    ReadLetter(d, Enc.HighSix(b));
    hide Enc.HighSix;
    hide Enc.LowTwo;
    hide Dec.AllSix;
    hide TopSix;
    hide EncodeValue;
    hide DecodeValue;
    hide Negative;
    hide Enc.Reachable;
    hide Dec.Output;
    hide Dec.After;
  }

  lemma KeepsStepB(data: seq<byte>, b: byte, e: Enc.EncodeState, decoded: seq<byte>, d: Dec.DecodeState)
    requires Enc.Reachable(e) && e.step.StepB? && InStep(data, e, decoded, d)
    ensures var chars := Enc.Output1(e, b);
            Dec.Clean(chars) && InStep(data + [b], Enc.After1(e, b), decoded + Dec.Output(d, chars),
                    Dec.After(d, chars))
  {
    var x := data[|data| - 1];
    var v := Join(Enc.LowTwo(x), Enc.HighFour(b));
    SecondPiece(x, b);
    ReadLetter(d, v);
    hide Enc.LowTwo;
    hide Enc.HighFour;
    hide Enc.LowFour;
    hide Dec.UpperTwo;
    hide Dec.LowerFour;
    hide Join;
    hide TopSix;
    hide TopFour;
    hide EncodeValue;
    hide DecodeValue;
    hide Negative;
    hide Enc.Reachable;
    hide Dec.Output;
    hide Dec.After;
    assert data == data[..|data| - 1] + [x];
  }

  lemma KeepsStepC(data: seq<byte>, b: byte, e: Enc.EncodeState, decoded: seq<byte>, d: Dec.DecodeState)
    requires Enc.Reachable(e) && e.step.StepC? && InStep(data, e, decoded, d)
    ensures var chars := Enc.Output1(e, b);
            Dec.Clean(chars) && InStep(data + [b], Enc.After1(e, b), decoded + Dec.Output(d, chars),
                    Dec.After(d, chars))
  {
    var x := data[|data| - 1];
    var v := Join(Enc.LowFour(x), Enc.HighTwo(b));
    ThirdPiece(x, b);
    FourthPiece(x, b);
    ReadLetter(d, v);
    hide Enc.LowFour;
    hide Enc.HighTwo;
    hide Dec.UpperFour;
    hide Dec.LowerTwo;
    hide Join;
    hide LowSix;
    hide TopFour;
    hide EncodeValue;
    hide DecodeValue;
    hide Negative;
    hide Enc.Reachable;
    hide Dec.Output;
    hide Dec.After;
    var c, c' := EncodeValue(v), EncodeValue(LowSix(b));
    var d1 := Dec.After1(d, c);
    ReadLetter(d1, LowSix(b));
    var d2 := Dec.After1(d1, c');
    var end := if e.stepcount + 1 == Enc.GROUPS_PER_LINE then [NEWLINE] else [];
    ReadForeign(d2, end);
    Dec.BlocksCompose(d, [c], [c']);
    Dec.BlocksCompose(d, [c] + [c'], end);
    assert Enc.Output1(e, b) == [c] + [c'] + end;
    assert data == data[..|data| - 1] + [x];
    assert Dec.Output1(d, c) == [x];
    assert Dec.Output1(d1, c') == [b];
    assert decoded + ([x] + [b] + []) == data + [b];
  }

  /** The decoder that reads all the encoder writes stays in step with it. */
  lemma {:induction false} Simulation(data: seq<byte>)
    ensures var text := Enc.Output(Enc.FRESH, data);
            Dec.Clean(text) && InStep(data, Enc.After(Enc.FRESH, data), Dec.Output(Dec.FRESH, text),
                    Dec.After(Dec.FRESH, text))
    decreases |data|
  {
    if data != [] {
      var front, b := data[..|data| - 1], data[|data| - 1];
      assert data == front + [b];
      Simulation(front);
      var text, e := Enc.Output(Enc.FRESH, front), Enc.After(Enc.FRESH, front);
      var decoded, d := Dec.Output(Dec.FRESH, text), Dec.After(Dec.FRESH, text);
      EncodeOne(front, b);
      hide Enc.Output;
      hide Enc.After;
      hide Enc.After1;
      hide Enc.Output1;
      match e.step {
        case StepA => KeepsStepA(front, b, e, decoded, d);
        case StepB => KeepsStepB(front, b, e, decoded, d);
        case StepC => KeepsStepC(front, b, e, decoded, d);
      }
      hide InStep;
      Dec.BlocksCompose(Dec.FRESH, text, Enc.Output1(e, b));
    }
  }

  lemma EncodeOne(front: seq<byte>, b: byte)
    ensures var e := Enc.After(Enc.FRESH, front);
            && Enc.After(Enc.FRESH, front + [b]) == Enc.After1(e, b)
            && Enc.Output(Enc.FRESH, front + [b]) == Enc.Output(Enc.FRESH, front) + Enc.Output1(e, b)
  {
    var data := front + [b];
    Enc.OutputGrows(Enc.FRESH, data, |front|);
    hide Enc.After1;
    hide Enc.Output1;
    assert data[..|front|] == front && data[..|front| + 1] == data;
  }

  /** What blockend writes delivers the byte in progress and nothing else. */
  lemma ReadEnd(data: seq<byte>, e: Enc.EncodeState, decoded: seq<byte>, d: Dec.DecodeState)
    requires Enc.Reachable(e) && InStep(data, e, decoded, d)
    ensures Dec.Clean(Enc.EndOutput(e)) && decoded + Dec.Output(d, Enc.EndOutput(e)) == data
  {
    hide Dec.Output;
    hide Dec.After;
    hide EncodeValue;
    hide DecodeValue;
    hide Negative;
    hide Enc.Reachable;
    if e.step.StepA? {
      ReadForeign(d, Enc.EndOutput(e));
    } else {
      var x := data[|data| - 1];
      LastPieces(x);
      hide Enc.LowTwo;
      hide Enc.LowFour;
      hide Dec.UpperTwo;
      hide Dec.UpperFour;
      hide Join;
      hide TopSix;
      hide TopFour;
      var c := EncodeValue(e.result);
      ReadLetter(d, e.result);
      var pads := if e.step.StepB? then [PAD, PAD, NEWLINE] else [PAD, NEWLINE];
      ReadForeign(Dec.After1(d, c), pads);
      Dec.BlocksCompose(d, [c], pads);
      assert Enc.EndOutput(e) == [c] + pads;
      assert Dec.Output1(d, c) == [x];
      assert data == data[..|data| - 1] + [x];
    }
  }

  lemma TextDecodes(data: seq<byte>)
    ensures Dec.Clean(Enc.Text(data)) && Dec.Output(Dec.FRESH, Enc.Text(data)) == data
  {
    Simulation(data);
    hide InStep;
    hide Dec.Output;
    hide Dec.After;
    hide Enc.After;
    hide Enc.Output;
    hide Enc.EndOutput;
    var text, e := Enc.Output(Enc.FRESH, data), Enc.After(Enc.FRESH, data);
    ReadEnd(data, e, Dec.Output(Dec.FRESH, text), Dec.After(Dec.FRESH, text));
    Dec.BlocksCompose(Dec.FRESH, text, Enc.EndOutput(e));
  }

  /** Encode any blocks, end, cut the text anywhere, decode the pieces: the bytes are back. */
  lemma RoundTrip(blocks: seq<seq<byte>>, pieces: seq<seq<byte>>)
    requires Flatten(pieces) == Enc.OutputBlocks(Enc.FRESH, blocks) + Enc.EndOutput(Enc.AfterBlocks(Enc.FRESH, blocks))
    ensures forall i :: 0 <= i < |pieces| ==> Dec.Clean(pieces[i])
    ensures Dec.OutputBlocks(Dec.FRESH, pieces) == Flatten(blocks)
  {
    Enc.BlocksDoNotMatter(Enc.FRESH, blocks);
    TextDecodes(Flatten(blocks));
    CleanPieces(pieces);
    Dec.BlocksDoNotMatter(Dec.FRESH, pieces);
  }

  lemma {:induction false} CleanPieces(pieces: seq<seq<byte>>)
    requires Dec.Clean(Flatten(pieces))
    ensures forall i :: 0 <= i < |pieces| ==> Dec.Clean(pieces[i])
  {
    if pieces != [] {
      assert forall c :: c in pieces[0] ==> c in Flatten(pieces);
      assert forall c :: c in Flatten(pieces[1..]) ==> c in Flatten(pieces);
      CleanPieces(pieces[1..]);
    }
  }
}
