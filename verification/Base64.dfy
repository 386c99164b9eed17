/** The base64 alphabet, as the encoder writes it and the decoder reads it. Characters are bytes,
    and the two lookup tables are given by their runs. */
module Base64 {
  import opened Bytes

  const NEWLINE: byte := 10
  const PAD: byte := 61
  const BRACE: byte := 123
  const SKIP: byte := 0xFF
  const SKIP_PAD: byte := 0xFE

  /** The character of a six-bit value: 'A' to 'Z', 'a' to 'z', '0' to '9', '+', '/'. */
  function EncodeValue(value: byte): byte
    requires value <= 0x7F
  {
    if value > 63 then PAD
    else if value < 26 then value + 65
    else if value < 52 then value + 71
    else if value < 62 then value - 4
    else if value == 62 then 43
    else 47
  }

  /** A negative char, here 0x80 and up, marks what is not a base64 character. The subtraction wraps
      as it does for a char; the guard would let '{' through to one past the end of the table. */
  function DecodeValue(c: byte): byte
    requires c != BRACE
  {
    var v := c - 43;
    if v >= 0x80 || v > 80 then SKIP
    else if v == 0 then 62
    else if v == 4 then 63
    else if 5 <= v <= 14 then v + 47
    else if v == 18 then SKIP_PAD
    else if 22 <= v <= 47 then v - 22
    else if 54 <= v <= 79 then v - 28
    else SKIP
  }

  predicate Negative(fragment: byte) {
    fragment >= 0x80
  }

  lemma LetterDecodes(value: byte)
    requires value <= 63
    ensures EncodeValue(value) != BRACE && DecodeValue(EncodeValue(value)) == value
    ensures EncodeValue(value) != NEWLINE && EncodeValue(value) != PAD
  {
  }

  /** The encoder's table is the alphabet, sixteen letters at a time: "ABCDEFGHIJKLMNOP", "QRSTUVWXYZabcdef",
      "ghijklmnopqrstuv" and "wxyz0123456789+/". */
  lemma AlphabetIs()
    ensures [EncodeValue(0), EncodeValue(1), EncodeValue(2), EncodeValue(3), EncodeValue(4), EncodeValue(5),
             EncodeValue(6), EncodeValue(7), EncodeValue(8), EncodeValue(9), EncodeValue(10), EncodeValue(11),
             EncodeValue(12), EncodeValue(13), EncodeValue(14), EncodeValue(15)]
         == [65, 66, 67, 68, 69, 70, 71, 72, 73, 74, 75, 76, 77, 78, 79, 80]
    ensures [EncodeValue(16), EncodeValue(17), EncodeValue(18), EncodeValue(19), EncodeValue(20), EncodeValue(21),
             EncodeValue(22), EncodeValue(23), EncodeValue(24), EncodeValue(25), EncodeValue(26), EncodeValue(27),
             EncodeValue(28), EncodeValue(29), EncodeValue(30), EncodeValue(31)]
         == [81, 82, 83, 84, 85, 86, 87, 88, 89, 90, 97, 98, 99, 100, 101, 102]
    ensures [EncodeValue(32), EncodeValue(33), EncodeValue(34), EncodeValue(35), EncodeValue(36), EncodeValue(37),
             EncodeValue(38), EncodeValue(39), EncodeValue(40), EncodeValue(41), EncodeValue(42), EncodeValue(43),
             EncodeValue(44), EncodeValue(45), EncodeValue(46), EncodeValue(47)]
         == [103, 104, 105, 106, 107, 108, 109, 110, 111, 112, 113, 114, 115, 116, 117, 118]
    ensures [EncodeValue(48), EncodeValue(49), EncodeValue(50), EncodeValue(51), EncodeValue(52), EncodeValue(53),
             EncodeValue(54), EncodeValue(55), EncodeValue(56), EncodeValue(57), EncodeValue(58), EncodeValue(59),
             EncodeValue(60), EncodeValue(61), EncodeValue(62), EncodeValue(63)]
         == [119, 120, 121, 122, 48, 49, 50, 51, 52, 53, 54, 55, 56, 57, 43, 47]
  {
  }

  /** Exactly the letters, the digits, '+' and '/' decode to something. */
  lemma DecodesExactly(c: byte)
    requires c != BRACE
    ensures !Negative(DecodeValue(c)) <==> 65 <= c <= 90 || 97 <= c <= 122 || 48 <= c <= 57 || c == 43 || c == 47
  {
  }

  lemma ForeignCharacters()
    ensures Negative(DecodeValue(NEWLINE)) && Negative(DecodeValue(PAD))
  {
  }

  function LowSix(b: byte): byte {
    b & 0x3F
  }

  function Join(held: byte, piece: byte): byte {
    held | piece
  }

  function Flatten(blocks: seq<seq<byte>>): seq<byte> {
    if blocks == [] then [] else blocks[0] + Flatten(blocks[1..])
  }
}
