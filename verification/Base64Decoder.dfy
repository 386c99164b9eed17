/** The resumable decoder. */
module Base64Decoder {
  import opened Bytes
  import opened Base64

  datatype DecodeStep = StepA | StepB | StepC | StepD

  /** The label to resume at and the byte in progress, which means something only outside StepA. */
  datatype DecodeState = DecodeState(step: DecodeStep, plainchar: byte)

  const FRESH := DecodeState(StepA, 0)

  // ---- the pieces of a fragment ----

  function AllSix(fragment: byte): byte {
    (fragment & 0x3F) << 2
  }

  function UpperTwo(fragment: byte): byte {
    (fragment & 0x30) >> 4
  }

  function LowerFour(fragment: byte): byte {
    (fragment & 0x0F) << 4
  }

  function UpperFour(fragment: byte): byte {
    (fragment & 0x3C) >> 2
  }

  function LowerTwo(fragment: byte): byte {
    (fragment & 0x03) << 6
  }

  /** Text that the table lookup is defined on. */
  predicate Clean(code: seq<byte>) {
    BRACE !in code
  }

  // ---- one character ----

  function After1(s: DecodeState, c: byte): DecodeState
    requires c != BRACE
  {
    var fragment := DecodeValue(c);
    if Negative(fragment) then s else
    match s.step
    case StepA => DecodeState(StepB, AllSix(fragment))
    case StepB => DecodeState(StepC, LowerFour(fragment))
    case StepC => DecodeState(StepD, LowerTwo(fragment))
    case StepD => DecodeState(StepA, 0)
  }

  function Output1(s: DecodeState, c: byte): seq<byte>
    requires c != BRACE
  {
    var fragment := DecodeValue(c);
    if Negative(fragment) then [] else
    match s.step
    case StepA => []
    case StepB => [Join(s.plainchar, UpperTwo(fragment))]
    case StepC => [Join(s.plainchar, UpperFour(fragment))]
    case StepD => [Join(s.plainchar, LowSix(fragment))]
  }

  // ---- a block ----

  function After(s: DecodeState, code: seq<byte>): DecodeState
    requires Clean(code)
    decreases |code|
  {
    if code == [] then s else After(After1(s, code[0]), code[1..])
  }

  function Output(s: DecodeState, code: seq<byte>): seq<byte>
    requires Clean(code)
    decreases |code|
  {
    if code == [] then [] else Output1(s, code[0]) + Output(After1(s, code[0]), code[1..])
  }

  /** Splitting the text into two blocks changes neither the output nor the live state. */
  lemma {:induction false} BlocksCompose(s: DecodeState, a: seq<byte>, b: seq<byte>)
    requires Clean(a) && Clean(b)
    ensures Clean(a + b)
    ensures After(s, a + b) == After(After(s, a), b)
    ensures Output(s, a + b) == Output(s, a) + Output(After(s, a), b)
    decreases |a|
  {
    hide After1;
    hide Output1;
    if a == [] {
      assert a + b == b;
    } else {
      assert (a + b)[1..] == a[1..] + b;
      BlocksCompose(After1(s, a[0]), a[1..], b);
    }
  }

  function OutputBlocks(s: DecodeState, blocks: seq<seq<byte>>): seq<byte>
    requires forall i :: 0 <= i < |blocks| ==> Clean(blocks[i])
    decreases |blocks|
  {
    if blocks == [] then [] else Output(s, blocks[0]) + OutputBlocks(After(s, blocks[0]), blocks[1..])
  }

  lemma {:induction false} BlocksDoNotMatter(s: DecodeState, blocks: seq<seq<byte>>)
    requires forall i :: 0 <= i < |blocks| ==> Clean(blocks[i])
    ensures Clean(Flatten(blocks))
    ensures OutputBlocks(s, blocks) == Output(s, Flatten(blocks))
    decreases |blocks|
  {
    if blocks != [] {
      hide After1;
      hide Output1;
      BlocksDoNotMatter(After(s, blocks[0]), blocks[1..]);
      BlocksCompose(s, blocks[0], Flatten(blocks[1..]));
    }
  }

  /** Characters outside the alphabet, padding included, might as well not be there. */
  function Letters(code: seq<byte>): (letters: seq<byte>)
    requires Clean(code)
    ensures Clean(letters)
  {
    if code == [] then []
    else (if Negative(DecodeValue(code[0])) then [] else [code[0]]) + Letters(code[1..])
  }

  lemma {:induction false} ForeignCharactersDoNotMatter(s: DecodeState, code: seq<byte>)
    requires Clean(code)
    ensures After(s, code) == After(s, Letters(code))
    ensures Output(s, code) == Output(s, Letters(code))
    decreases |code|
  {
    hide DecodeValue;
    hide Negative;
    if code != [] {
      ForeignCharactersDoNotMatter(After1(s, code[0]), code[1..]);
      var rest := Letters(code[1..]);
      if !Negative(DecodeValue(code[0])) {
        assert ([code[0]] + rest)[1..] == rest;
      } else {
        assert Letters(code) == rest;
      }
    }
  }

  lemma OutputGrows(s: DecodeState, code: seq<byte>, i: nat)
    requires Clean(code) && i < |code|
    ensures Clean(code[..i]) && Clean(code[..i + 1])
    ensures After(s, code[..i + 1]) == After1(After(s, code[..i]), code[i])
    ensures Output(s, code[..i + 1]) == Output(s, code[..i]) + Output1(After(s, code[..i]), code[i])
    ensures |Output(s, code[..i + 1])| <= |Output(s, code)|
  {
    hide After1;
    hide Output1;
    assert code[..i + 1] == code[..i] + [code[i]];
    BlocksCompose(s, code[..i], [code[i]]);
    var t := After(s, code[..i]);
    assert Output(t, [code[i]]) == Output1(t, code[i]) + [];
    assert code == code[..i + 1] + code[i + 1..];
    BlocksCompose(s, code[..i + 1], code[i + 1..]);
  }

  function Held(s: DecodeState): nat {
    match s.step
    case StepA => 0
    case StepB => 6
    case StepC => 4
    case StepD => 2
  }

  /** Every character brings at most six bits. */
  lemma {:induction false} BitsReceived(s: DecodeState, code: seq<byte>)
    requires Clean(code)
    ensures 8 * |Output(s, code)| + Held(After(s, code)) <= Held(s) + 6 * |code|
    decreases |code|
  {
    hide DecodeValue;
    hide Negative;
    if code != [] {
      BitsReceived(After1(s, code[0]), code[1..]);
    }
  }

  /** A buffer of the block's own size has room for the output and the byte in progress from four
      characters on. */
  lemma BlockFits(s: DecodeState, code: seq<byte>, n: nat)
    requires Clean(code) && |code| <= n && n >= 4
    ensures |Output(s, code)| < n
  {
    BitsReceived(s, code);
  }

  /** Whether every block of at most n characters leaves room, in n bytes, for the byte in progress
      behind its output. */
  predicate StreamFits(s: DecodeState, code: seq<byte>, n: nat)
    requires Clean(code) && n >= 1
    decreases |code|
  {
    code != [] ==>
      var k := if |code| < n then |code| else n;
      |Output(s, code[..k])| < n && StreamFits(After(s, code[..k]), code[k..], n)
  }

  lemma {:induction false} LargeBlocksFit(s: DecodeState, code: seq<byte>, n: nat)
    requires Clean(code) && n >= 4
    ensures StreamFits(s, code, n)
    decreases |code|
  {
    if code != [] {
      var k := if |code| < n then |code| else n;
      BlockFits(s, code[..k], n);
      LargeBlocksFit(After(s, code[..k]), code[k..], n);
    }
  }

  /** 'A'. */
  const LETTER: byte := 65

  function Repeated(k: nat): (code: seq<byte>)
    ensures |code| == k && Clean(code) && forall i :: 0 <= i < k ==> code[i] == LETTER
  {
    seq(k, _ => LETTER)
  }

  function Index(step: DecodeStep): nat {
    match step
    case StepA => 0
    case StepB => 1
    case StepC => 2
    case StepD => 3
  }

  lemma LetterStep(s: DecodeState)
    ensures Index(After1(s, LETTER).step) == (Index(s.step) + 1) % 4
    ensures |Output1(s, LETTER)| == if s.step.StepA? then 0 else 1
  {
    assert DecodeValue(LETTER) == 0;
  }

  /** Up to three letters write a byte each, except one that starts a group. */
  lemma {:induction false} FewLetters(s: DecodeState, k: nat)
    requires k <= 3
    ensures Index(After(s, Repeated(k)).step) == (Index(s.step) + k) % 4
    ensures |Output(s, Repeated(k))| == if k > 0 && (s.step.StepA? || Index(s.step) + k > 4) then k - 1 else k
    decreases k
  {
    if k > 0 {
      LetterStep(s);
      hide DecodeValue;
      hide Negative;
      hide After1;
      hide Output1;
      assert Repeated(k)[1..] == Repeated(k - 1);
      FewLetters(After1(s, LETTER), k - 1);
    }
  }

  lemma OneBlock(s: DecodeState, n: nat, m: nat) returns (t: DecodeState)
    requires 1 <= n <= 3 && m >= 1
    ensures Index(t.step) == (Index(s.step) + n) % 4
    ensures StreamFits(s, Repeated(n * m), n) ==>
              (s.step.StepA? || Index(s.step) + n > 4) && StreamFits(t, Repeated(n * (m - 1)), n)
  {
    var code := Repeated(n * m);
    assert n * m == n + n * (m - 1);
    assert code[..n] == Repeated(n) && code[n..] == Repeated(n * (m - 1));
    FewLetters(s, n);
    t := After(s, Repeated(n));
  }

  /** Blocks of fewer than four characters overflow on twelve letters at the latest. */
  lemma SmallBlocksOverflow(n: nat)
    requires 1 <= n <= 3
    ensures !StreamFits(FRESH, Repeated(n * 4), n)
  {
    hide StreamFits;
    hide Repeated;
    var s1 := OneBlock(FRESH, n, 4);
    var s2 := OneBlock(s1, n, 3);
    var s3 := OneBlock(s2, n, 2);
    var s4 := OneBlock(s3, n, 1);
  }

  /** The wrapper's buffer is large enough for every text exactly from four characters a block on. */
  lemma StreamFitsExactly(n: nat)
    requires n >= 1
    ensures (forall code :: Clean(code) ==> StreamFits(FRESH, code, n)) <==> n >= 4
  {
    if n >= 4 {
      forall code | Clean(code)
        ensures StreamFits(FRESH, code, n)
      {
        LargeBlocksFit(FRESH, code, n);
      }
    } else {
      SmallBlocksOverflow(n);
    }
  }

  // ---- the decoder itself ----

  class Decoder {
    var step: DecodeStep
    var plainchar: byte

    /** What of the state matters. */
    function State(): DecodeState
      reads this
    {
      if step.StepA? then FRESH else DecodeState(step, plainchar)
    }

    constructor ()
      ensures State() == FRESH
    {
      step, plainchar := StepA, 0;
    }

    /** From one label to the next. The byte in progress is kept in the output buffer, at at. */
    method DecodeCharacter(c: byte, plaintextOut: array<byte>, at: nat, ghost s: DecodeState, ghost written: seq<byte>)
      returns (next: nat)
      requires c != BRACE && at < plaintextOut.Length && at + |Output1(s, c)| < plaintextOut.Length
      requires s == (if step.StepA? then FRESH else DecodeState(step, plaintextOut[at]))
      requires plaintextOut[..at] == written
      modifies this`step, plaintextOut
      ensures next == at + |Output1(s, c)|
      ensures plaintextOut[..next] == written + Output1(s, c)
      ensures After1(s, c) == (if step.StepA? then FRESH else DecodeState(step, plaintextOut[next]))
      ensures plaintextOut[next + 1..] == old(plaintextOut[next + 1..])
    {
      hide AllSix;
      hide UpperTwo;
      hide LowerFour;
      hide UpperFour;
      hide LowerTwo;
      hide LowSix;
      hide Join;
      hide DecodeValue;
      hide Negative;
      next := at;
      var fragment := DecodeValue(c);
      if Negative(fragment) {
        return;
      }
      match step {
        case StepA =>
          plaintextOut[next] := AllSix(fragment);
          step := StepB;
        case StepB =>
          plaintextOut[next] := Join(plaintextOut[next], UpperTwo(fragment));
          next := next + 1;
          plaintextOut[next] := LowerFour(fragment);
          step := StepC;
        case StepC =>
          plaintextOut[next] := Join(plaintextOut[next], UpperFour(fragment));
          next := next + 1;
          plaintextOut[next] := LowerTwo(fragment);
          step := StepD;
        case StepD =>
          plaintextOut[next] := Join(plaintextOut[next], LowSix(fragment));
          next := next + 1;
          step := StepA;
      }
    }

    /** Decodes one block. The buffer needs room for the byte in progress as well. */
    method DecodeBlock(code: seq<byte>, plaintextOut: array<byte>) returns (n: nat)
      requires Clean(code) && |Output(State(), code)| < plaintextOut.Length
      modifies this, plaintextOut
      ensures State() == After(old(State()), code)
      ensures n == |Output(old(State()), code)|
      ensures plaintextOut[..n] == Output(old(State()), code)
      ensures plaintextOut[n + 1..] == old(plaintextOut[n + 1..])
    {
      hide After1;
      hide Output1;
      ghost var s0 := State();
      plaintextOut[0] := plainchar;
      var codechar := 0;
      n := 0;
      while codechar < |code|
        invariant codechar <= |code|
        invariant Clean(code[..codechar])
        invariant n == |Output(s0, code[..codechar])| < plaintextOut.Length
        invariant After(s0, code[..codechar]) == (if step.StepA? then FRESH else DecodeState(step, plaintextOut[n]))
        invariant plaintextOut[..n] == Output(s0, code[..codechar])
        invariant plaintextOut[n + 1..] == old(plaintextOut[n + 1..])
      {
        OutputGrows(s0, code, codechar);
        ghost var s, written := After(s0, code[..codechar]), Output(s0, code[..codechar]);
        n := DecodeCharacter(code[codechar], plaintextOut, n, s, written);
        codechar := codechar + 1;
      }
      assert code[..codechar] == code;
      plainchar := plaintextOut[n];
    }
  }
}
